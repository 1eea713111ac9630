/**
 * The hybrid decoder inverts the hybrid coder: decoding the bits of a single-band image
 * coded in bsq order, with the same parameters and matching tables, gives back every
 * mapped residual.  The proof follows the decoder backwards through the stream: after
 * the tail, and after each sample t, the decoder's state is exactly the coder's state
 * before sample t together with the bits the coder had written by then.
 */
module HybridRoundTrip {
  import opened Wrappers
  import opened Bits
  import opened ReverseReads
  import opened CodingTables
  import opened Accumulator
  import opened Gpo2
  import opened HybridEncodeSpec
  import opened HybridDecodeSpec

  /** The decoder runs with the coder's clipped parameters on a one-band image. */
  predicate SameParameters(cfg: CoderConfig, dcfg: DecoderConfig)
  {
    dcfg.Umax == cfg.Umax && dcfg.gamma == cfg.gamma && dcfg.gamma0 == cfg.gamma0 && dcfg.D == cfg.D && dcfg.nBands == 1
  }

  /**
   * The setting of the round trip: matching tables, the same parameters, gamma_0 < gamma
   * (which the coder's clipping guarantees), D >= 1, residuals below 2^D, one residual
   * per pixel, after any header.
   */
  ghost predicate Setting(cfg: CoderConfig, ct: CoderTables, dcfg: DecoderConfig, dt: DecoderTables, header: BitString, rs: seq<nat>)
  {
    && MatchingTables(ct, dt) && SameParameters(cfg, dcfg)
    && 1 <= cfg.D && cfg.gamma0 < cfg.gamma
    && |rs| == ImageSize(dcfg)
    && (forall i :: 0 <= i < |rs| ==> rs[i] < Pow2(cfg.D))
  }

  /** The residual matrix once samples t.. have been decoded into a zero matrix. */
  function DecodedFrom(rs: seq<nat>, t: nat): (m: seq<int>)
    ensures |m| == |rs|
  {
    seq(|rs|, k requires 0 <= k < |rs| => if k >= t then rs[k] else 0)
  }

  /** The decoder's progress just before it decodes sample t - 1 (the coder's state after samples 0..t-1). */
  function ProgressAt(cfg: CoderConfig, ct: CoderTables, header: BitString, rs: seq<nat>, t: nat): Progress
    requires ValidCoderTables(ct) && t <= |rs|
  {
    var st := RunState(cfg, ct, rs, t);
    Progress(DecoderState(header + RunBits(cfg, ct, rs, t), [st.Sigma], st.prefixes), DecodedFrom(rs, t))
  }

  /** Rescaling bit, if any, read back: the accumulator before the update is restored. */
  lemma RestoreAfterSample(cfg: CoderConfig, st: CoderState, r: nat, P: BitString)
    ensures var st1 := Updated(cfg, st, r);
      var rescale := RescaleBits(st.Sigma, st.Gamma, cfg.gamma);
      (Rescales(st.Gamma, cfg.gamma) ==>
        ReadBits(P + rescale, 1) == Success(Cut(rescale, P))
        && RestoredSigma(st1.Sigma, r, true, Value(rescale)) == st.Sigma)
      && (!Rescales(st.Gamma, cfg.gamma) ==> P + rescale == P && RestoredSigma(st1.Sigma, r, false, 0) == st.Sigma)
  {
    var rescale := RescaleBits(st.Sigma, st.Gamma, cfg.gamma);
    RestoreInvertsUpdate(st.Sigma, st.Gamma, r, cfg.gamma);
    if Rescales(st.Gamma, cfg.gamma) {
      ReadBitsOfAppend(P, rescale);
      assert Value(rescale) == st.Sigma % 2 by {
        assert rescale[..0] == [];
      }
    }
  }

  /** An escaped residual r > L is read back from GPO2(r - L - 1, 0). */
  lemma EscapeRoundTrip(cfg: CoderConfig, P: BitString, r: nat, L: int)
    requires 0 <= L < r < Pow2(cfg.D) && 1 <= cfg.D
    ensures Gpo2Decode(P + EscapeBits(cfg, r, L), 0, cfg.Umax, cfg.D) == Success(Cut(r - L - 1, P))
  {
    assert Pow2(0) == 1;
    Gpo2RoundTrip(P, r - L - 1, 0, cfg.Umax, cfg.D);
  }

  /** Once the prefix ending in the input symbol of r is loaded, LowDecode yields r. */
  lemma {:induction false} LowDecodeOfLoaded(cfg: CoderConfig, dcfg: DecoderConfig, dt: DecoderTables, s: DecoderState, Sigma: int, Gamma: int,
                          i: nat, p: string, P: BitString, r: nat)
    requires ValidDecoderTables(dt) && |s.prefixes| == 16 && SameParameters(cfg, dcfg)
    requires i == SelectIndex(Sigma, Gamma, dt.limits) && 0 <= dt.limits[i].limit <= 15
    requires |p| >= 1 && p[|p| - 1] == InputSymbol(r, dt.limits[i].limit)
    requires 1 <= cfg.D && r < Pow2(cfg.D)
    requires LoadPrefix(dt, s, i) == Success(Cut(p, P + EscapeBits(cfg, r, dt.limits[i].limit)))
    ensures LowDecode(dcfg, dt, s, Sigma, Gamma) == Success(Decoded(r, DecoderState(P, s.sigmas, s.prefixes[i := p[..|p| - 1]])))
  {
    var L := dt.limits[i].limit;
    if r > L {
      var code := EscapeBits(cfg, r, L);
      assert p[|p| - 1] == Escape && dcfg.Umax == cfg.Umax && dcfg.D == cfg.D;
      EscapeRoundTrip(cfg, P, r, L);
      LowDecodeOfEscape(dcfg, dt, s, Sigma, Gamma, i, p, P, code, r);
    } else {
      assert EscapeBits(cfg, r, L) == [] && P + [] == P;
      LowDecodeOfSymbol(dcfg, dt, s, Sigma, Gamma, i, p, P, r);
    }
  }

  lemma LowDecodeOfEscape(dcfg: DecoderConfig, dt: DecoderTables, s: DecoderState, Sigma: int, Gamma: int,
                          i: nat, p: string, P: BitString, code: BitString, r: nat)
    requires ValidDecoderTables(dt) && |s.prefixes| == 16
    requires i == SelectIndex(Sigma, Gamma, dt.limits) && 0 <= dt.limits[i].limit < r
    requires |p| >= 1 && p[|p| - 1] == Escape
    requires Gpo2Decode(P + code, 0, dcfg.Umax, dcfg.D) == Success(Cut(r - dt.limits[i].limit - 1, P))
    requires LoadPrefix(dt, s, i) == Success(Cut(p, P + code))
    ensures LowDecode(dcfg, dt, s, Sigma, Gamma) == Success(Decoded(r, DecoderState(P, s.sigmas, s.prefixes[i := p[..|p| - 1]])))
  {
  }

  lemma LowDecodeOfSymbol(dcfg: DecoderConfig, dt: DecoderTables, s: DecoderState, Sigma: int, Gamma: int,
                          i: nat, p: string, P: BitString, r: nat)
    requires ValidDecoderTables(dt) && |s.prefixes| == 16
    requires i == SelectIndex(Sigma, Gamma, dt.limits)
    requires |p| >= 1 && p[|p| - 1] != Escape && HexValue(p[|p| - 1]) == Some(r)
    requires LoadPrefix(dt, s, i) == Success(Cut(p, P))
    ensures LowDecode(dcfg, dt, s, Sigma, Gamma) == Success(Decoded(r, DecoderState(P, s.sigmas, s.prefixes[i := p[..|p| - 1]])))
  {
  }

  /** The prefix LowDecode loads is the coder's prefix i extended by the input symbol. */
  lemma LoadPrefixInvertsLowStep(cfg: CoderConfig, ct: CoderTables, dt: DecoderTables, st1: CoderState, r: nat, P: BitString)
    requires MatchingTables(ct, dt) && |st1.prefixes| == 16
    ensures var i := SelectIndex(st1.Sigma, st1.Gamma, ct.limits);
      var s := DecoderState(P + LowEntropyBits(cfg, ct, st1, r), [st1.Sigma], LowEntropyState(ct, st1, r).prefixes);
      LoadPrefix(dt, s, i) == Success(Cut(Extended(ct, st1, r), P + EscapeBits(cfg, r, ct.limits[i].limit)))
  {
    var bits := LowEntropyBits(cfg, ct, st1, r);
    var after := LowEntropyState(ct, st1, r);
    var i := SelectIndex(st1.Sigma, st1.Gamma, ct.limits);
    var p := Extended(ct, st1, r);
    var escape := EscapeBits(cfg, r, ct.limits[i].limit);
    var s := DecoderState(P + bits, [st1.Sigma], after.prefixes);
    if p in ct.codes[i] {
      var cw := ct.codes[i][p];
      assert bits == escape + cw;
      assert Inverts(ct.codes[i], dt.codes[i]) && SuffixFree(dt.codes[i]);
      LoadCodeword(dt, s, i, P + escape, cw, p);
    } else {
      assert bits == escape && after.prefixes[i] == p;
    }
  }

  /** An empty prefix is loaded from the codeword the coder wrote last. */
  lemma LoadCodeword(dt: DecoderTables, s: DecoderState, i: nat, Q: BitString, cw: BitString, p: string)
    requires ValidDecoderTables(dt) && |s.prefixes| == 16 && i < 16
    requires cw in dt.codes[i] && SuffixFree(dt.codes[i]) && dt.codes[i][cw] == p
    requires s.prefixes[i] == "" && s.bits == Q + cw
    ensures LoadPrefix(dt, s, i) == Success(Cut(p, Q))
  {
    ReadCodewordOfAppend(Q, cw, dt.codes[i]);
  }

  /** The low-entropy output of one sample, read back. */
  lemma LowDecodeInvertsLowStep(cfg: CoderConfig, ct: CoderTables, dcfg: DecoderConfig, dt: DecoderTables,
                                 st1: CoderState, r: nat, P: BitString)
    requires MatchingTables(ct, dt) && SameParameters(cfg, dcfg) && 1 <= cfg.D && r < Pow2(cfg.D)
    requires PrefixesPending(ct, st1.prefixes)
    ensures var s := DecoderState(P + LowEntropyBits(cfg, ct, st1, r), [st1.Sigma], LowEntropyState(ct, st1, r).prefixes);
      LowDecode(dcfg, dt, s, st1.Sigma, st1.Gamma) == Success(Decoded(r, DecoderState(P, [st1.Sigma], st1.prefixes)))
  {
    var after := LowEntropyState(ct, st1, r);
    var i := SelectIndex(st1.Sigma, st1.Gamma, ct.limits);
    var p := Extended(ct, st1, r);
    var s := DecoderState(P + LowEntropyBits(cfg, ct, st1, r), [st1.Sigma], after.prefixes);
    LoadPrefixInvertsLowStep(cfg, ct, dt, st1, r, P);
    LowDecodeOfLoaded(cfg, dcfg, dt, s, st1.Sigma, st1.Gamma, i, p, P, r);
    assert p[..|p| - 1] == st1.prefixes[i];
    assert after.prefixes[i := st1.prefixes[i]] == st1.prefixes;
  }

  /** The code of one sample in either mode, read back in the mode the decoder selects. */
  lemma DecodeModeInvertsModeBits(cfg: CoderConfig, ct: CoderTables, dcfg: DecoderConfig, dt: DecoderTables,
                                   st1: CoderState, r: nat, P: BitString)
    requires MatchingTables(ct, dt) && SameParameters(cfg, dcfg) && 1 <= cfg.D && r < Pow2(cfg.D)
    requires PrefixesPending(ct, st1.prefixes)
    ensures var s := DecoderState(P + ModeBits(cfg, ct, st1, r), [st1.Sigma], ModeState(ct, st1, r).prefixes);
      DecodeMode(dcfg, dt, s, st1.Sigma, st1.Gamma) == Success(Decoded(r, DecoderState(P, [st1.Sigma], st1.prefixes)))
  {
    if HighEntropy(st1.Sigma, st1.Gamma, ct.limits[0].threshold) {
      Gpo2RoundTrip(P, r, SelectK(st1.Sigma, st1.Gamma, cfg.D), cfg.Umax, cfg.D);
    } else {
      LowDecodeInvertsLowStep(cfg, ct, dcfg, dt, st1, r, P);
    }
  }

  /**
   * One sample t >= 1 stepped back: from the bits X the coder had written before it,
   * followed by the rescaling bit and the sample's code, and the state after it, the
   * decoder recovers r, X and the state before it.
   */
  lemma SampleStepBack(cfg: CoderConfig, ct: CoderTables, dcfg: DecoderConfig, dt: DecoderTables,
                       st: CoderState, X: BitString, t: nat, r: nat, pos: Position)
    requires MatchingTables(ct, dt) && SameParameters(cfg, dcfg) && 1 <= cfg.D && r < Pow2(cfg.D)
    requires PrefixesPending(ct, st.prefixes)
    requires 1 <= t && st.Gamma == GammaAt(cfg.gamma0, cfg.gamma, t - 1)
    requires InImage(dcfg, pos) && SampleIndex(dcfg, pos) == t
    ensures var st1 := Updated(cfg, st, r);
      var rescale := RescaleBits(st.Sigma, st.Gamma, cfg.gamma);
      var s := DecoderState(X + rescale + ModeBits(cfg, ct, st1, r), [st1.Sigma], ModeState(ct, st1, r).prefixes);
      DecodeResidual(dcfg, dt, s, pos) == Success(Decoded(r, DecoderState(X, [st.Sigma], st.prefixes)))
  {
    var st1 := Updated(cfg, st, r);
    var rescale := RescaleBits(st.Sigma, st.Gamma, cfg.gamma);
    var P := X + rescale;
    var s := DecoderState(P + ModeBits(cfg, ct, st1, r), [st1.Sigma], ModeState(ct, st1, r).prefixes);
    assert DecodeMode(dcfg, dt, s, st1.Sigma, GammaAt(dcfg.gamma0, dcfg.gamma, SampleIndex(dcfg, pos)))
      == Success(Decoded(r, DecoderState(P, [st1.Sigma], st.prefixes))) by {
      assert GammaAt(cfg.gamma0, cfg.gamma, t) == st1.Gamma;
      DecodeModeInvertsModeBits(cfg, ct, dcfg, dt, st1, r, P);
    }
    RestoreAfterSample(cfg, st, r, X);
    NotFirstSample(dcfg, pos);
    if Rescales(st.Gamma, cfg.gamma) {
      RestoreRescaled(dcfg, dt, s, pos, r, P, X, rescale, st1.Sigma, st.Sigma, st.prefixes);
    } else {
      RestorePlain(dcfg, dt, s, pos, r, P, st1.Sigma, st.Sigma, st.prefixes);
    }
  }

  /** Only position (0, 0) has sample index 0. */
  lemma NotFirstSample(dcfg: DecoderConfig, pos: Position)
    requires SampleIndex(dcfg, pos) >= 1
    ensures !(pos.row == 0 && pos.col == 0)
  {
    if pos.row == 0 {
      assert pos.row * dcfg.nCols == 0;
    }
  }

  /** DecodeResidual at a position other than (0, 0), once the mode has decoded r. */
  lemma RestoreStep(dcfg: DecoderConfig, dt: DecoderTables, s: DecoderState, pos: Position, r: nat,
                    P: BitString, X: BitString, rescale: BitString, SigmaAfter: int, Sigma: int, prefixes: seq<string>, rescaled: bool)
    requires ValidDecoderTables(dt) && |s.prefixes| == 16 && |prefixes| == 16
    requires s.sigmas == [SigmaAfter] && pos.band == 0 && !(pos.row == 0 && pos.col == 0)
    requires DecodeMode(dcfg, dt, s, SigmaAfter, GammaAt(dcfg.gamma0, dcfg.gamma, SampleIndex(dcfg, pos)))
      == Success(Decoded(r, DecoderState(P, [SigmaAfter], prefixes)))
    requires RescaledAt(dcfg.gamma0, dcfg.gamma, SampleIndex(dcfg, pos)) == rescaled
    requires P == X + rescale
    requires rescaled ==> ReadBits(P, 1) == Success(Cut(rescale, X)) && RestoredSigma(SigmaAfter, r, true, Value(rescale)) == Sigma
    requires !rescaled ==> P == X && RestoredSigma(SigmaAfter, r, false, 0) == Sigma
    ensures DecodeResidual(dcfg, dt, s, pos) == Success(Decoded(r, DecoderState(X, [Sigma], prefixes)))
  {
    if rescaled {
      RestoreRescaled(dcfg, dt, s, pos, r, P, X, rescale, SigmaAfter, Sigma, prefixes);
    } else {
      RestorePlain(dcfg, dt, s, pos, r, P, SigmaAfter, Sigma, prefixes);
    }
  }

  lemma RestoreRescaled(dcfg: DecoderConfig, dt: DecoderTables, s: DecoderState, pos: Position, r: nat,
                        P: BitString, X: BitString, rescale: BitString, SigmaAfter: int, Sigma: int, prefixes: seq<string>)
    requires ValidDecoderTables(dt) && |s.prefixes| == 16 && |prefixes| == 16
    requires s.sigmas == [SigmaAfter] && pos.band == 0 && !(pos.row == 0 && pos.col == 0)
    requires DecodeMode(dcfg, dt, s, SigmaAfter, GammaAt(dcfg.gamma0, dcfg.gamma, SampleIndex(dcfg, pos)))
      == Success(Decoded(r, DecoderState(P, [SigmaAfter], prefixes)))
    requires RescaledAt(dcfg.gamma0, dcfg.gamma, SampleIndex(dcfg, pos))
    requires ReadBits(P, 1) == Success(Cut(rescale, X)) && RestoredSigma(SigmaAfter, r, true, Value(rescale)) == Sigma
    ensures DecodeResidual(dcfg, dt, s, pos) == Success(Decoded(r, DecoderState(X, [Sigma], prefixes)))
  {
    assert [SigmaAfter][0 := Sigma] == [Sigma];
  }

  lemma RestorePlain(dcfg: DecoderConfig, dt: DecoderTables, s: DecoderState, pos: Position, r: nat,
                     P: BitString, SigmaAfter: int, Sigma: int, prefixes: seq<string>)
    requires ValidDecoderTables(dt) && |s.prefixes| == 16 && |prefixes| == 16
    requires s.sigmas == [SigmaAfter] && pos.band == 0 && !(pos.row == 0 && pos.col == 0)
    requires DecodeMode(dcfg, dt, s, SigmaAfter, GammaAt(dcfg.gamma0, dcfg.gamma, SampleIndex(dcfg, pos)))
      == Success(Decoded(r, DecoderState(P, [SigmaAfter], prefixes)))
    requires !RescaledAt(dcfg.gamma0, dcfg.gamma, SampleIndex(dcfg, pos))
    requires RestoredSigma(SigmaAfter, r, false, 0) == Sigma
    ensures DecodeResidual(dcfg, dt, s, pos) == Success(Decoded(r, DecoderState(P, [Sigma], prefixes)))
  {
    assert [SigmaAfter][0 := Sigma] == [Sigma];
  }

  /** Sample t >= 1: the decoder's state before it is the coder's state after it, and after it the coder's state before it. */
  lemma SampleRoundTrip(cfg: CoderConfig, ct: CoderTables, dcfg: DecoderConfig, dt: DecoderTables,
                        header: BitString, rs: seq<nat>, t: nat, pos: Position)
    requires Setting(cfg, ct, dcfg, dt, header, rs)
    requires 1 <= t < |rs| && InImage(dcfg, pos) && SampleIndex(dcfg, pos) == t
    ensures DecodeResidual(dcfg, dt, ProgressAt(cfg, ct, header, rs, t + 1).state, pos)
      == Success(Decoded(rs[t], ProgressAt(cfg, ct, header, rs, t).state))
  {
    var st := RunState(cfg, ct, rs, t);
    RunInvariants(cfg, ct, rs, t);
    var X := header + RunBits(cfg, ct, rs, t);
    SampleStepBack(cfg, ct, dcfg, dt, st, X, t, rs[t], pos);
    RunStep(cfg, ct, header, rs, t);
  }

  /** Run after sample t >= 1, in terms of Run before it. */
  lemma RunStep(cfg: CoderConfig, ct: CoderTables, header: BitString, rs: seq<nat>, t: nat)
    requires ValidCoderTables(ct) && 1 <= t < |rs|
    ensures var st := RunState(cfg, ct, rs, t);
      var st1 := Updated(cfg, st, rs[t]);
      var bits := header + RunBits(cfg, ct, rs, t) + RescaleBits(st.Sigma, st.Gamma, cfg.gamma) + ModeBits(cfg, ct, st1, rs[t]);
      ProgressAt(cfg, ct, header, rs, t + 1).state == DecoderState(bits, [st1.Sigma], ModeState(ct, st1, rs[t]).prefixes)
  {
    var st := RunState(cfg, ct, rs, t);
    var st1 := Updated(cfg, st, rs[t]);
    var rescale := RescaleBits(st.Sigma, st.Gamma, cfg.gamma);
    var mode := ModeBits(cfg, ct, st1, rs[t]);
    assert RunState(cfg, ct, rs, t + 1) == ModeState(ct, st1, rs[t]);
    assert RunBits(cfg, ct, rs, t + 1) == RunBits(cfg, ct, rs, t) + (rescale + mode);
    AppendAssoc(header, RunBits(cfg, ct, rs, t), rescale, mode);
    assert ProgressAt(cfg, ct, header, rs, t + 1).state.bits == header + RunBits(cfg, ct, rs, t) + rescale + mode;
    assert ProgressAt(cfg, ct, header, rs, t + 1).state.sigmas == [st1.Sigma];
  }

  lemma AppendAssoc(a: BitString, b: BitString, c: BitString, d: BitString)
    ensures a + (b + (c + d)) == a + b + c + d
  {
  }

  /** Sample 0 is read back from its D plain bits, leaving the header. */
  lemma {:induction false} FirstSampleRoundTrip(cfg: CoderConfig, ct: CoderTables, dcfg: DecoderConfig, dt: DecoderTables,
                             header: BitString, rs: seq<nat>)
    requires Setting(cfg, ct, dcfg, dt, header, rs) && 1 <= |rs|
    ensures DecodeResidual(dcfg, dt, ProgressAt(cfg, ct, header, rs, 1).state, Position(0, 0, 0))
      == Success(Decoded(rs[0], ProgressAt(cfg, ct, header, rs, 0).state))
  {
    var plain := Binary(rs[0], cfg.D);
    assert RunBits(cfg, ct, rs, 1) == plain;
    assert ProgressAt(cfg, ct, header, rs, 1).state.bits == header + plain;
    ReadBitsOfAppend(header, plain);
    ValueOfBinary(rs[0], cfg.D);
    assert header + [] == header;
  }

  /**
   * The decoder's progress ps[t] before each sample t - 1 steps back one sample at a
   * time: at every position of sample t, decoding from ps[t + 1] gives rs[t] and ps[t].
   */
  ghost predicate StepsBack(dcfg: DecoderConfig, dt: DecoderTables, rs: seq<nat>, ps: seq<Progress>)
  {
    && ValidDecoderTables(dt) && dcfg.nBands == 1 && |rs| == ImageSize(dcfg) && |ps| == |rs| + 1
    && (forall t :: 0 <= t < |ps| ==>
          |ps[t].state.sigmas| == 1 && |ps[t].state.prefixes| == 16 && ps[t].residuals == DecodedFrom(rs, t))
    && (forall t, pos :: 0 <= t < |rs| && InImage(dcfg, pos) && SampleIndex(dcfg, pos) == t ==>
          DecodeResidual(dcfg, dt, ps[t + 1].state, pos) == Success(Decoded(rs[t], ps[t].state)))
  }

  /** With one band, a sample's place in the residual matrix is its sample index. */
  lemma FlatIndexOneBand(dcfg: DecoderConfig, pos: Position)
    requires dcfg.nBands == 1 && pos.band == 0
    ensures FlatIndex(dcfg, pos) == SampleIndex(dcfg, pos)
  {
  }

  /** One visit of the traversal: sample t is decoded into its place and the progress steps back. */
  lemma VisitStepsBack(dcfg: DecoderConfig, dt: DecoderTables, rs: seq<nat>, ps: seq<Progress>, t: nat, pos: Position)
    requires StepsBack(dcfg, dt, rs, ps)
    requires t < |rs| && InImage(dcfg, pos) && SampleIndex(dcfg, pos) == t
    ensures Visit(dcfg, dt)(ps[t + 1], pos) == Success(ps[t])
  {
    FlatIndexOneBand(dcfg, pos);
    assert DecodedFrom(rs, t + 1)[t := rs[t]] == DecodedFrom(rs, t);
  }

  /** Visits listing samples top-1, top-2, ... in turn, each stepping the progress back by one. */
  lemma {:induction false} WalkBack(dcfg: DecoderConfig, visit: (Progress, Position) -> Result<Progress, DecodeError>,
                                    ps: seq<Progress>, v: seq<Position>, top: nat, rest: seq<Position>)
    requires |v| <= top < |ps|
    requires forall t, pos :: 0 <= t < top && InImage(dcfg, pos) && SampleIndex(dcfg, pos) == t ==> visit(ps[t + 1], pos) == Success(ps[t])
    requires forall i :: 0 <= i < |v| ==> InImage(dcfg, v[i]) && SampleIndex(dcfg, v[i]) + i + 1 == top
    ensures Walk(visit, ps[top], v + rest) == Walk(visit, ps[top - |v|], rest)
  {
    if v == [] {
      assert v + rest == rest;
    } else {
      assert (v + rest)[1..] == v[1..] + rest;
      assert visit(ps[top], v[0]) == Success(ps[top - 1]);
      WalkBack(dcfg, visit, ps, v[1..], top - 1, rest);
    }
  }

  /** Column c-1-i of the row is the i-th position of ColumnsDown. */
  lemma {:induction false} ColumnsDownAt(dcfg: DecoderConfig, row: nat, band: nat, c: nat, i: nat)
    requires row < dcfg.nRows && band < dcfg.nBands && c <= dcfg.nCols && i < c
    ensures ColumnsDown(dcfg, row, band, c)[i] == Position(row, c - 1 - i, band)
  {
    if i > 0 {
      ColumnsDownAt(dcfg, row, band, c - 1, i - 1);
    }
  }

  /** In a single band, bsq lists sample r*nCols-1 first and sample 0 last. */
  lemma {:induction false} BsqRowsAt(dcfg: DecoderConfig, r: nat)
    requires dcfg.nBands == 1 && r <= dcfg.nRows
    ensures |BsqRows(dcfg, 0, r)| == r * dcfg.nCols
    ensures forall i :: 0 <= i < |BsqRows(dcfg, 0, r)| ==>
      BsqRows(dcfg, 0, r)[i].band == 0 && SampleIndex(dcfg, BsqRows(dcfg, 0, r)[i]) + i + 1 == r * dcfg.nCols
  {
    if r > 0 {
      BsqRowsAt(dcfg, r - 1);
      MulStep(r, dcfg.nCols);
      var head := ColumnsDown(dcfg, r - 1, 0, dcfg.nCols);
      var v := BsqRows(dcfg, 0, r);
      assert v == head + BsqRows(dcfg, 0, r - 1);
      forall i | 0 <= i < |v|
        ensures v[i].band == 0 && SampleIndex(dcfg, v[i]) + i + 1 == r * dcfg.nCols
      {
        if i < dcfg.nCols {
          ColumnsDownAt(dcfg, r - 1, 0, dcfg.nCols, i);
        }
      }
    }
  }

  lemma MulStep(r: nat, n: nat)
    requires r >= 1
    ensures (r - 1) * n + n == r * n
  {
  }

  /** The decoder's progress before each sample, as the coder's runs determine it. */
  function Stages(cfg: CoderConfig, ct: CoderTables, header: BitString, rs: seq<nat>): (ps: seq<Progress>)
    requires ValidCoderTables(ct)
    ensures |ps| == |rs| + 1
  {
    seq(|rs| + 1, t requires 0 <= t <= |rs| => ProgressAt(cfg, ct, header, rs, t))
  }

  lemma StageAt(cfg: CoderConfig, ct: CoderTables, header: BitString, rs: seq<nat>, t: nat)
    requires ValidCoderTables(ct) && t <= |rs|
    ensures Stages(cfg, ct, header, rs)[t] == ProgressAt(cfg, ct, header, rs, t)
  {
  }

  /** The coder's runs step back sample by sample under the decoder. */
  lemma StagesStepBack(cfg: CoderConfig, ct: CoderTables, dcfg: DecoderConfig, dt: DecoderTables, header: BitString, rs: seq<nat>)
    requires Setting(cfg, ct, dcfg, dt, header, rs)
    ensures StepsBack(dcfg, dt, rs, Stages(cfg, ct, header, rs))
  {
    var ps := Stages(cfg, ct, header, rs);
    forall t, pos | 0 <= t < |rs| && InImage(dcfg, pos) && SampleIndex(dcfg, pos) == t
      ensures DecodeResidual(dcfg, dt, ps[t + 1].state, pos) == Success(Decoded(rs[t], ps[t].state))
    {
      StageStepBack(cfg, ct, dcfg, dt, header, rs, t, pos, ps);
    }
  }

  /** Sample t decodes from stage t + 1 back to stage t. */
  lemma StageStepBack(cfg: CoderConfig, ct: CoderTables, dcfg: DecoderConfig, dt: DecoderTables,
                      header: BitString, rs: seq<nat>, t: nat, pos: Position, ps: seq<Progress>)
    requires Setting(cfg, ct, dcfg, dt, header, rs) && ps == Stages(cfg, ct, header, rs)
    requires t < |rs| && InImage(dcfg, pos) && SampleIndex(dcfg, pos) == t
    ensures DecodeResidual(dcfg, dt, ps[t + 1].state, pos) == Success(Decoded(rs[t], ps[t].state))
  {
    StageAt(cfg, ct, header, rs, t);
    StageAt(cfg, ct, header, rs, t + 1);
    ProgressStepBack(cfg, ct, dcfg, dt, header, rs, t, pos);
  }

  lemma ProgressStepBack(cfg: CoderConfig, ct: CoderTables, dcfg: DecoderConfig, dt: DecoderTables,
                         header: BitString, rs: seq<nat>, t: nat, pos: Position)
    requires Setting(cfg, ct, dcfg, dt, header, rs)
    requires t < |rs| && InImage(dcfg, pos) && SampleIndex(dcfg, pos) == t
    ensures DecodeResidual(dcfg, dt, ProgressAt(cfg, ct, header, rs, t + 1).state, pos)
      == Success(Decoded(rs[t], ProgressAt(cfg, ct, header, rs, t).state))
  {
    if t == 0 {
      FirstPosition(dcfg, pos);
      FirstSampleRoundTrip(cfg, ct, dcfg, dt, header, rs);
    } else {
      SampleRoundTrip(cfg, ct, dcfg, dt, header, rs, t, pos);
    }
  }

  /** Only position (0, 0) of the band has sample index 0. */
  lemma FirstPosition(dcfg: DecoderConfig, pos: Position)
    requires InImage(dcfg, pos) && dcfg.nBands == 1 && SampleIndex(dcfg, pos) == 0
    ensures pos == Position(0, 0, 0)
  {
    assert pos.row * dcfg.nCols >= pos.row;
  }

  /** The flush codewords of prefixes 0..n-1, read back last index first. */
  lemma {:induction false} FlushRoundTrip(ct: CoderTables, dt: DecoderTables, X: BitString, ps: seq<string>, n: nat)
    requires MatchingTables(ct, dt) && PrefixesPending(ct, ps) && n <= 16
    ensures ReadFlush(X + FlushBits(ct, ps, n), dt, n) == Success(Cut(ps[..n], X))
  {
    if n == 0 {
      assert X + [] == X;
    } else {
      var cw := ct.flush[n - 1][ps[n - 1]];
      var Y := X + FlushBits(ct, ps, n - 1);
      assert X + FlushBits(ct, ps, n) == Y + cw;
      assert Inverts(ct.flush[n - 1], dt.flush[n - 1]);
      ReadCodewordOfAppend(Y, cw, dt.flush[n - 1]);
      FlushRoundTrip(ct, dt, X, ps, n - 1);
      assert ps[..n - 1] + [ps[n - 1]] == ps[..n];
    }
  }

  /** The tail decodes the same after the zero padding of the framing. */
  lemma FramedTail(cfg: CoderConfig, ct: CoderTables, dcfg: DecoderConfig, dt: DecoderTables,
                   X: BitString, st: CoderState, wordSize: nat)
    requires MatchingTables(ct, dt) && SameParameters(cfg, dcfg) && wordSize >= 1
    requires PrefixesPending(ct, st.prefixes) && st.Sigma < Pow2(2 + cfg.D + cfg.gamma)
    ensures DecodeTail(dcfg, dt, Framed(X + TailBits(cfg, ct, st), wordSize)) == Success(DecoderState(X, [st.Sigma], st.prefixes))
  {
    var body := X + TailBits(cfg, ct, st);
    var B := Framed(body, wordSize);
    var z := |B| - |body|;
    assert B == body + Zeros(z);
    DecodeTailOf(cfg, ct, dcfg, dt, X, st, z);
  }

  /** decodeImageTail on the coder's output recovers the coder's final state. */
  lemma TailRoundTrip(cfg: CoderConfig, ct: CoderTables, dcfg: DecoderConfig, dt: DecoderTables,
                      header: BitString, rs: seq<nat>, wordSize: nat)
    requires Setting(cfg, ct, dcfg, dt, header, rs) && wordSize >= 1
    ensures DecodeTail(dcfg, dt, EncodedBits(cfg, ct, header, rs, wordSize)) == Success(ProgressAt(cfg, ct, header, rs, |rs|).state)
  {
    var st := RunState(cfg, ct, rs, |rs|);
    FinalStateFitsTail(cfg, ct, rs);
    FramedTail(cfg, ct, dcfg, dt, header + RunBits(cfg, ct, rs, |rs|), st, wordSize);
  }

  /** The coder's final state has pending prefixes and an accumulator that fits the tail's field. */
  lemma FinalStateFitsTail(cfg: CoderConfig, ct: CoderTables, rs: seq<nat>)
    requires ValidCoderTables(ct) && cfg.gamma0 < cfg.gamma
    requires forall i :: 0 <= i < |rs| ==> rs[i] < Pow2(cfg.D)
    ensures PrefixesPending(ct, RunState(cfg, ct, rs, |rs|).prefixes)
    ensures RunState(cfg, ct, rs, |rs|).Sigma < Pow2(2 + cfg.D + cfg.gamma)
  {
    RunPrefixesPending(cfg, ct, rs, |rs|);
    RunSigmaFitsTail(cfg, ct, rs, |rs|);
  }

  lemma RunSigmaFitsTail(cfg: CoderConfig, ct: CoderTables, rs: seq<nat>, n: nat)
    requires ValidCoderTables(ct) && cfg.gamma0 < cfg.gamma && n <= |rs|
    requires forall i :: 0 <= i < |rs| ==> rs[i] < Pow2(cfg.D)
    ensures RunState(cfg, ct, rs, n).Sigma < Pow2(2 + cfg.D + cfg.gamma)
  {
    var st := RunState(cfg, ct, rs, n);
    RunAccumulator(cfg, ct, rs, n);
    AccumulatorFitsTail(st.Sigma, st.Gamma, cfg.D, cfg.gamma);
  }

  /** The tail the coder appends to bits X, padded with z zeros, decodes to X and the coder's state. */
  lemma DecodeTailOf(cfg: CoderConfig, ct: CoderTables, dcfg: DecoderConfig, dt: DecoderTables,
                     X: BitString, st: CoderState, z: nat)
    requires MatchingTables(ct, dt) && SameParameters(cfg, dcfg)
    requires PrefixesPending(ct, st.prefixes) && st.Sigma < Pow2(2 + cfg.D + cfg.gamma)
    ensures DecodeTail(dcfg, dt, X + TailBits(cfg, ct, st) + Zeros(z)) == Success(DecoderState(X, [st.Sigma], st.prefixes))
  {
    var w := 2 + cfg.D + cfg.gamma;
    var F := X + FlushBits(ct, st.prefixes, 16);
    ReadOneSigma(F, st.Sigma, w);
    FlushRoundTrip(ct, dt, X, st.prefixes, 16);
    assert st.prefixes[..16] == st.prefixes;
    TailIsPadded(cfg, ct, X, st, z);
    DecodePaddedTail(dcfg, dt, F + Binary(st.Sigma, w), z, w, F, X, [st.Sigma as int], st.prefixes);
  }

  /** Decoding a padded tail: the padding goes, then the accumulators and the flush codewords are read. */
  lemma {:induction false} DecodePaddedTail(dcfg: DecoderConfig, dt: DecoderTables, P: BitString, z: nat, w: nat, F: BitString,
                         X: BitString, sigmas: seq<int>, prefixes: seq<string>)
    requires ValidDecoderTables(dt) && dcfg.nBands == 1 && w == dcfg.D + 2 + dcfg.gamma
    requires ReadSigmas(P, w, 1) == Success(Cut(sigmas, F))
    requires ReadFlush(F, dt, 16) == Success(Cut(prefixes, X))
    ensures DecodeTail(dcfg, dt, P + ['1'] + Zeros(z)) == Success(DecoderState(X, sigmas, prefixes))
  {
    InversePaddingOfPadded(P, z);
  }

  /** The coder's tail is the flush codewords and Sigma's binary form, then the one that padding marks. */
  lemma TailIsPadded(cfg: CoderConfig, ct: CoderTables, X: BitString, st: CoderState, z: nat)
    requires ValidCoderTables(ct) && PrefixesPending(ct, st.prefixes)
    requires st.Sigma < Pow2(2 + cfg.D + cfg.gamma)
    ensures X + TailBits(cfg, ct, st) + Zeros(z)
      == X + FlushBits(ct, st.prefixes, 16) + Binary(st.Sigma, 2 + cfg.D + cfg.gamma) + ['1'] + Zeros(z)
  {
    var w := 2 + cfg.D + cfg.gamma;
    ZFillBin(st.Sigma, w);
    TailShape(X, FlushBits(ct, st.prefixes, 16), Binary(st.Sigma, w), Zeros(z));
  }

  lemma TailShape(X: BitString, flush: BitString, sigma: BitString, pad: BitString)
    ensures X + (flush + sigma + ['1']) + pad == X + flush + sigma + ['1'] + pad
  {
  }

  /** One accumulator of width w read back from its binary form. */
  lemma ReadOneSigma(F: BitString, Sigma: nat, w: nat)
    requires Sigma < Pow2(w)
    ensures ReadSigmas(F + Binary(Sigma, w), w, 1) == Success(Cut([Sigma as int], F))
  {
    var bits := Binary(Sigma, w);
    ReadBitsOfAppend(F, bits);
    ValueOfBinary(Sigma, w);
    assert ReadBits(F + bits, w) == Success(Cut(bits, F));
    assert ReadSigmas(F, w, 0) == Success(Cut([], F));
    assert [] + [Value(bits) as int] == [Sigma as int];
  }

  /**
   * The round trip: decoding, in bsq order, the bytes the coder produced for a
   * single-band image gives back every mapped residual.
   */
  lemma BsqRoundTrip(cfg: CoderConfig, ct: CoderTables, dcfg: DecoderConfig, dt: DecoderTables,
                     header: BitString, rs: seq<nat>, wordSize: nat, stream: seq<Byte>)
    requires Setting(cfg, ct, dcfg, dt, header, rs) && wordSize >= 1
    requires BytesBits(stream) == EncodedBits(cfg, ct, header, rs, wordSize)
    ensures DecodeSpec(dcfg, dt, stream, "bsq") == Success(rs)
  {
    var ps := Stages(cfg, ct, header, rs);
    StagesStepBack(cfg, ct, dcfg, dt, header, rs);
    TailRoundTrip(cfg, ct, dcfg, dt, header, rs, wordSize);
    DecodeFromTail(dcfg, dt, rs, ps, stream);
  }

  /** A tail that yields the last stage, followed by the bsq traversal, yields every residual. */
  lemma DecodeFromTail(dcfg: DecoderConfig, dt: DecoderTables, rs: seq<nat>, ps: seq<Progress>, stream: seq<Byte>)
    requires StepsBack(dcfg, dt, rs, ps)
    requires DecodeTail(dcfg, dt, BytesBits(stream)) == Success(ps[|rs|].state)
    ensures DecodeSpec(dcfg, dt, stream, "bsq") == Success(rs)
  {
    var N := |rs|;
    ImageSizeOneBand(dcfg);
    assert ZeroMatrix(ImageSize(dcfg)) == DecodedFrom(rs, N);
    assert Progress(ps[N].state, ZeroMatrix(ImageSize(dcfg))) == ps[N];
    VisitsBsq(dcfg);
    BsqTraversal(dcfg, dt, rs, ps);
    assert DecodeVisits(dcfg, dt, Progress(ps[N].state, ZeroMatrix(ImageSize(dcfg))), Visits(dcfg, "bsq")) == Success(ps[0]);
    assert DecodedFrom(rs, 0) == rs;
  }

  /** The bsq traversal from the last stage walks back to the first. */
  lemma BsqTraversal(dcfg: DecoderConfig, dt: DecoderTables, rs: seq<nat>, ps: seq<Progress>)
    requires StepsBack(dcfg, dt, rs, ps)
    ensures DecodeVisits(dcfg, dt, ps[|rs|], BsqRows(dcfg, 0, dcfg.nRows)) == Success(ps[0])
  {
    var N := |rs|;
    var v := BsqRows(dcfg, 0, dcfg.nRows);
    var visit := Visit(dcfg, dt);
    ImageSizeOneBand(dcfg);
    BsqRowsAt(dcfg, dcfg.nRows);
    forall t, pos | 0 <= t < N && InImage(dcfg, pos) && SampleIndex(dcfg, pos) == t
      ensures visit(ps[t + 1], pos) == Success(ps[t])
    {
      VisitStepsBack(dcfg, dt, rs, ps, t, pos);
    }
    forall i | 0 <= i < |v|
      ensures InImage(dcfg, v[i]) && SampleIndex(dcfg, v[i]) + i + 1 == N
    {
      assert v[i] in v;
    }
    WalkBack(dcfg, visit, ps, v, N, []);
    assert v + [] == v;
  }

  /** In a single band, the bsq order is the rows of band 0. */
  lemma VisitsBsq(dcfg: DecoderConfig)
    requires dcfg.nBands == 1
    ensures Visits(dcfg, "bsq") == BsqRows(dcfg, 0, dcfg.nRows)
  {
    assert BsqBands(dcfg, 1) == BsqRows(dcfg, 0, dcfg.nRows) + [];
  }

  lemma ImageSizeOneBand(dcfg: DecoderConfig)
    requires dcfg.nBands == 1
    ensures ImageSize(dcfg) == dcfg.nRows * dcfg.nCols
  {
  }
}
