/**
 * The GFSK modem of the baseband model (software/models/modem.py).
 *
 * Samples are exact reals. The cosine used to build and to correlate
 * waveforms is never evaluated: the methods that need it take it as a
 * parameter `cos: real -> real`, so every property proved here is about
 * structure (buffer contents, tick and symbol counting, window sums) and
 * holds for whatever cosine the caller supplies.
 *
 * The clock is the DAC/ADC sample clock F_sample = 32 MHz; a BLE symbol
 * lasts 1 us, i.e. 32 ticks.
 */
module Modem {

  // ---------------------------------------------------------------------
  // Configuration
  // ---------------------------------------------------------------------

  const Amp: real := 1.0                  // A, the carrier amplitude
  const H: real := 0.5                    // modulation index h
  const F: real := 3000000.0              // carrier (intermediate) frequency
  const FOffset: real := 250000.0         // frequency deviation of a mark or a space
  const Pi: real := 3.141592653589793     // numpy's pi; only its name matters here
  const WF: real := 18849555.921538758   // angular carrier frequency 2 pi F
  const Omega1: real := 20420352.2483336545  // angular mark tone 2 pi (F + F_offset)
  const Omega0: real := 17278759.5947438615  // angular space tone 2 pi (F - F_offset)
  const FSymbol: real := 1000000.0        // 1 Msym/s
  const FSample: real := 32000000.0       // 32 MHz clock

  const SamplesPerSymbol: nat := 32       // F_sample / F_symbol
  const OversamplingFactor: nat := 16     // FIR samples per symbol
  const SymbolSpan: nat := 6              // symbols covered by the FIR
  const SamplingInterval: nat := 2        // ticks between shifts of the FIR register
  const BufferLength: nat := 97           // FIR register length

  /** The derived constants are the ratios and products of the rates and sizes they come from. */
  lemma DerivedConstants()
    ensures FSample / FSymbol == SamplesPerSymbol as real
    ensures SamplingInterval == SamplesPerSymbol / OversamplingFactor
    ensures BufferLength == OversamplingFactor * SymbolSpan + 1
    ensures WF == 2.0 * Pi * F
    ensures Omega1 == 2.0 * Pi * (F + FOffset) && Omega0 == 2.0 * Pi * (F - FOffset)
    ensures forall x :: OverFSample(x) == x / FSample
    ensures forall y :: FirSample(y) == y / FSymbol
  {
  }

  /**
   * x / F_sample: a time in ticks converted to seconds, or a per-tick sum
   * scaled by the tick length. The rate is written out as a literal, which
   * keeps the division linear for the verifier.
   */
  function OverFSample(x: real): real
  {
    x / 32000000.0
  }

  // ---------------------------------------------------------------------
  // Gaussian pulse-shaping FIR
  // ---------------------------------------------------------------------

  // The weight table, one constant per line of the listing in modem.py.
  const WeightRow0: seq<real> :=
    [1.40031165852587e-29, 1.96615531083535e-28, 2.61129112221425e-27, 3.28047792188801e-26,
     3.89819268037825e-25, 4.38161121543532e-24, 4.65852824412610e-23, 4.68498259401012e-22]
  const WeightRow1: seq<real> :=
    [4.45668137609324e-21, 4.01014010052386e-20, 3.41312238223497e-19, 2.74782158914969e-18,
     2.09251971005850e-17, 1.50728347886546e-16, 1.02698636084934e-15, 6.61879253298573e-15]
  const WeightRow2: seq<real> :=
    [4.03494125452166e-14, 2.32669801553591e-13, 1.26907467658144e-12, 6.54754802210512e-12,
     3.19532150318902e-11, 1.47500939703734e-10, 6.44049678383832e-10, 2.66004083528932e-09]
  const WeightRow3: seq<real> :=
    [1.03920587945997e-08, 3.84024773840945e-08, 1.34233602092313e-07, 4.43820749225537e-07,
     1.38802828277153e-06, 4.10613651611886e-06, 1.14898089755205e-05, 3.04114122166256e-05]
  const WeightRow4: seq<real> :=
    [7.61385712624428e-05, 0.000180308920607055, 0.000403900191900572, 0.000855805869858572,
     0.00171522389312682, 0.00325170193996781, 0.00583102626813850, 0.00989062238233514]
  const WeightRow5: seq<real> :=
    [0.0158688918289140, 0.0240831856694898, 0.0345720890878145, 0.0469441703874624,
     0.0602951068257410, 0.0732532377253947, 0.0841813597060414, 0.0915059645185963, 0.0940864809736566]
  const WeightRow6: seq<real> :=
    [0.0915059645185963, 0.0841813597060414, 0.0732532377253947, 0.0602951068257410,
     0.0469441703874624, 0.0345720890878145, 0.0240831856694898, 0.0158688918289140, 0.00989062238233514]
  const WeightRow7: seq<real> :=
    [0.00583102626813850, 0.00325170193996781, 0.00171522389312682, 0.000855805869858572,
     0.000403900191900572, 0.000180308920607055, 7.61385712624428e-05, 3.04114122166256e-05]
  const WeightRow8: seq<real> :=
    [1.14898089755205e-05, 4.10613651611886e-06, 1.38802828277153e-06, 4.43820749225537e-07,
     1.34233602092313e-07, 3.84024773840945e-08, 1.03920587945997e-08, 2.66004083528932e-09]
  const WeightRow9: seq<real> :=
    [6.44049678383832e-10, 1.47500939703734e-10, 3.19532150318902e-11, 6.54754802210512e-12,
     1.26907467658144e-12, 2.32669801553591e-13, 4.03494125452166e-14, 6.61879253298573e-15]
  const WeightRow10: seq<real> :=
    [1.02698636084934e-15, 1.50728347886546e-16, 2.09251971005850e-17, 2.74782158914969e-18,
     3.41312238223497e-19, 4.01014010052386e-20, 4.45668137609324e-21, 4.68498259401012e-22]
  const WeightRow11: seq<real> :=
    [4.65852824412610e-23, 4.38161121543532e-24, 3.89819268037825e-25, 3.28047792188801e-26,
     2.61129112221425e-27, 1.96615531083535e-28, 1.40031165852587e-29]

  const Weights: seq<real> :=
    ((WeightRow0 + WeightRow1) + (WeightRow2 + WeightRow3)) +
    ((WeightRow4 + WeightRow5) + (WeightRow6 + WeightRow7)) +
    ((WeightRow8 + WeightRow9) + (WeightRow10 + WeightRow11))

  lemma WeightCount()
    ensures |Weights| == BufferLength
  {
  }

  /** The weight table fits the register, is symmetric about its centre tap 48 and strictly positive. */
  lemma WeightTable()
    ensures |Weights| == BufferLength
    ensures forall i :: 0 <= i < BufferLength ==> Weights[i] == Weights[BufferLength - 1 - i]
    ensures forall i :: 0 <= i < BufferLength ==> Weights[i] > 0.0
  {
    OuterWeights();
    MiddleWeights();
    InnerWeights();
    CentreWeights();
  }

  // The lemmas below check the table entry by entry, a few entries of the left half at a time.
  lemma OuterWeights()
    ensures forall i :: 0 <= i < 16 ==> Weights[i] == Weights[96 - i] && Weights[i] > 0.0
  {
    forall i | 0 <= i < 16
      ensures Weights[i] == Weights[96 - i] && Weights[i] > 0.0
    {
      if i < 8 { assert i in {0, 1, 2, 3, 4, 5, 6, 7}; }
      else { assert i in {8, 9, 10, 11, 12, 13, 14, 15}; }
    }
  }

  lemma MiddleWeights()
    ensures forall i :: 16 <= i < 32 ==> Weights[i] == Weights[96 - i] && Weights[i] > 0.0
  {
    forall i | 16 <= i < 24
      ensures Weights[i] == Weights[96 - i] && Weights[i] > 0.0
    {
      assert i in {16, 17, 18, 19, 20, 21, 22, 23};
    }
    ShoulderWeights();
  }

  lemma ShoulderWeights()
    ensures forall i :: 24 <= i < 32 ==> Weights[i] == Weights[96 - i] && Weights[i] > 0.0
  {
    forall i | 24 <= i < 32
      ensures Weights[i] == Weights[96 - i] && Weights[i] > 0.0
    {
      assert i in {24, 25, 26, 27, 28, 29, 30, 31};
    }
  }

  lemma InnerWeights()
    ensures forall i :: 32 <= i < 40 ==> Weights[i] == Weights[96 - i] && Weights[i] > 0.0
  {
    forall i | 32 <= i < 40
      ensures Weights[i] == Weights[96 - i] && Weights[i] > 0.0
    {
      if i < 36 { assert i in {32, 33, 34, 35}; }
      else { assert i in {36, 37, 38, 39}; }
    }
  }

  lemma CentreWeights()
    ensures forall i :: 40 <= i <= 48 ==> Weights[i] == Weights[96 - i] && Weights[i] > 0.0
  {
    forall i | 40 <= i <= 48
      ensures Weights[i] == Weights[96 - i] && Weights[i] > 0.0
    {
      assert i in {40, 41, 42, 43, 44, 45, 46, 47, 48};
    }
  }

  /** Left-to-right sum of s[i] * w[i], the order in which a sum over a zip adds. */
  function Dot(s: seq<real>, w: seq<real>): real
    requires |s| == |w|
  {
    if |s| == 0 then 0.0 else Dot(s[..|s| - 1], w[..|w| - 1]) + s[|s| - 1] * w[|w| - 1]
  }

  /** Extending both prefixes by one entry adds that entry's product. */
  lemma DotSnoc(s: seq<real>, w: seq<real>, j: nat)
    requires |s| == |w| && j < |s|
    ensures Dot(s[..j + 1], w[..j + 1]) == Dot(s[..j], w[..j]) + s[j] * w[j]
  {
    assert s[..j + 1][..j] == s[..j];
    assert w[..j + 1][..j] == w[..j];
  }

  /** Sum of the entries of w. */
  function Total(w: seq<real>): real
  {
    if |w| == 0 then 0.0 else Total(w[..|w| - 1]) + w[|w| - 1]
  }

  function Abs(x: real): real
  {
    if x < 0.0 then -x else x
  }

  /** A register holding only zeros contributes nothing, whatever the weights. */
  lemma {:induction false} DotOfZeros(s: seq<real>, w: seq<real>)
    requires |s| == |w|
    requires forall i :: 0 <= i < |s| ==> s[i] == 0.0
    ensures Dot(s, w) == 0.0
  {
    if |s| > 0 {
      DotOfZeros(s[..|s| - 1], w[..|w| - 1]);
    }
  }

  /** Adding one more product of an entry within [-FSymbol, FSymbol] and a non-negative weight keeps the running bound. */
  lemma AccumulateBound(acc: real, a: real, b: real, total: real, acc': real, total': real)
    requires b >= 0.0 && -FSymbol <= a <= FSymbol && -(FSymbol * total) <= acc <= FSymbol * total
    requires acc' == acc + a * b && total' == total + b
    ensures -(FSymbol * total') <= acc' <= FSymbol * total'
  {
    var below, above := FSymbol + a, FSymbol - a;
    assert below * b >= 0.0 && above * b >= 0.0;
    assert a * b == below * b - FSymbol * b == FSymbol * b - above * b;
    assert FSymbol * total' == FSymbol * total + FSymbol * b;
  }

  /**
   * With non-negative weights and every entry within [-FSymbol, FSymbol]
   * (the values the modulator feeds the register), the output lies within
   * FSymbol times the weight total.
   */
  lemma {:induction false} DotBound(s: seq<real>, w: seq<real>)
    requires |s| == |w|
    requires forall i :: 0 <= i < |w| ==> w[i] >= 0.0
    requires forall i :: 0 <= i < |s| ==> -FSymbol <= s[i] <= FSymbol
    ensures -(FSymbol * Total(w)) <= Dot(s, w) <= FSymbol * Total(w)
  {
    if |s| > 0 {
      var n := |s| - 1;
      DotBound(s[..n], w[..n]);
      AccumulateBound(Dot(s[..n], w[..n]), s[n], w[n], Total(w[..n]), Dot(s, w), Total(w));
    }
  }

  /** True on the ticks at which the shift register advances. */
  predicate IsShiftTick(cycle: nat)
  {
    cycle % SamplingInterval == 0
  }

  /** The register after the tick `cycle` fed with `x`: on a shift tick x enters at index 0 and the oldest entry drops out. */
  function Tick(buf: seq<real>, x: real, cycle: nat): (r: seq<real>)
    requires |buf| > 0
    ensures |r| == |buf|
  {
    if IsShiftTick(cycle) then [x] + buf[..|buf| - 1] else buf
  }

  /**
   * The pulse shaper: its shift register and the weight table it is read
   * against. modem.py keeps both in module-level lists, the register
   * being the one that changes.
   */
  class GaussianFilter {
    var samples: array<real>
    const weights: seq<real>

    ghost predicate Valid()
      reads this
    {
      samples.Length == BufferLength && |weights| == BufferLength
    }

    /** A fresh register is filled with zeros; the weights are the Gaussian table. */
    constructor ()
      ensures Valid() && fresh(samples)
      ensures forall i :: 0 <= i < BufferLength ==> samples[i] == 0.0
      ensures weights == Weights
    {
      WeightCount();
      weights := Weights;
      samples := new real[BufferLength](_ => 0.0);
    }

    /**
     * One clock tick of the shaper: on a shift tick the register moves up by
     * one place in place and `sample` enters at index 0; on any other tick it
     * is left alone. Returns the weighted sum of the register.
     */
    method Step(sample: real, cycle: nat) returns (y: real)
      requires Valid()
      modifies samples
      ensures Valid()
      ensures samples[..] == Tick(old(samples[..]), sample, cycle)
      ensures y == Dot(samples[..], weights)
    {
      if cycle % SamplingInterval == 0 {
        Shift(sample);
      }
      y := Output(weights);
    }

    /** Moves every entry up by one place, dropping the last, and stores `sample` at index 0. */
    method Shift(sample: real)
      requires Valid()
      modifies samples
      ensures Valid()
      ensures samples[..] == [sample] + old(samples[..])[..BufferLength - 1]
    {
      var i := samples.Length - 1;
      while i > 0
        invariant 0 <= i < samples.Length
        invariant forall k :: 0 <= k <= i ==> samples[k] == old(samples[k])
        invariant forall k :: i < k < samples.Length ==> samples[k] == old(samples[k - 1])
      {
        samples[i] := samples[i - 1];
        i := i - 1;
      }
      samples[0] := sample;
    }

    /** The weighted sum of the register against `w`, accumulated entry by entry. */
    method Output(w: seq<real>) returns (y: real)
      requires Valid() && |w| == BufferLength
      ensures y == Dot(samples[..], w)
    {
      y := 0.0;
      var j := 0;
      while j < samples.Length
        invariant 0 <= j <= samples.Length
        invariant y == Dot(samples[..j], w[..j])
      {
        DotSnoc(samples[..], w, j);
        y := y + samples[j] * w[j];
        j := j + 1;
      }
      assert samples[..j] == samples[..];
      assert w[..j] == w;
    }
  }

  /** A zeroed register fed a zero sample stays zero and outputs zero, on any tick. */
  lemma ZeroInZeroOut(buf: seq<real>, cycle: nat)
    requires |buf| == BufferLength
    requires forall i :: 0 <= i < |buf| ==> buf[i] == 0.0
    ensures forall i :: 0 <= i < BufferLength ==> Tick(buf, 0.0, cycle)[i] == 0.0
    ensures Dot(Tick(buf, 0.0, cycle), Weights) == 0.0
  {
    WeightCount();
    DotOfZeros(Tick(buf, 0.0, cycle), Weights);
  }

  // ---------------------------------------------------------------------
  // Modulator
  // ---------------------------------------------------------------------

  /** The symbol amplitude a_i: +1 for a set bit, -1 for a clear one. */
  function Amplitude(bit: int): (a: real)
    ensures a == 1.0 || a == -1.0
    ensures a == 1.0 <==> bit != 0
  {
    if bit != 0 then 1.0 else -1.0
  }

  /** The value fed into the shaper at tick c: the current symbol's amplitude times F_symbol. */
  function SymbolInput(data: seq<int>, c: nat): real
    requires c < SamplesPerSymbol * |data|
  {
    Amplitude(data[c / SamplesPerSymbol]) * FSymbol
  }

  /** The register after the first n ticks of modulating `data`, starting from `buf0`. */
  function Register(buf0: seq<real>, data: seq<int>, n: nat): (r: seq<real>)
    requires |buf0| > 0 && n <= SamplesPerSymbol * |data|
    ensures |r| == |buf0|
  {
    if n == 0 then buf0 else Tick(Register(buf0, data, n - 1), SymbolInput(data, n - 1), n - 1)
  }

  /** The shaper's output at tick c. */
  function ShaperOutput(buf0: seq<real>, data: seq<int>, w: seq<real>, c: nat): real
    requires |buf0| == BufferLength && |w| == BufferLength && c < SamplesPerSymbol * |data|
  {
    Dot(Register(buf0, data, c + 1), w)
  }

  /** A data_fir_wave entry: the shaper output normalised by F_symbol, so a settled run of equal symbols reads about +1 or -1. */
  function FirSample(y: real): real
  {
    y / 1000000.0
  }

  /** One step of the phase integral: the shaper output times the tick length 1 / F_sample, added to the phase so far. */
  function AdvancePhase(phi: real, y: real): real
  {
    OverFSample(y) + phi
  }

  /** The accumulated phase after n ticks: the running sum of shaper outputs times 1/F_sample. */
  function Phase(buf0: seq<real>, data: seq<int>, w: seq<real>, n: nat): real
    requires |buf0| == BufferLength && |w| == BufferLength && n <= SamplesPerSymbol * |data|
  {
    if n == 0 then 0.0 else AdvancePhase(Phase(buf0, data, w, n - 1), ShaperOutput(buf0, data, w, n - 1))
  }

  /** The transmitted sample at tick `cycle` for accumulated phase phi: s(t) = A cos(wF t + h pi phi(t)), t = cycle / F_sample. */
  function Carrier(cos: real -> real, cycle: nat, phi: real): real
  {
    Amp * cos(WF * OverFSample(cycle as real) + H * Pi * phi)
  }

  /** One tick of the modulator extends the phase, data_fir_wave and wave by that tick's shaper output. */
  lemma ModulationStep(buf0: seq<real>, data: seq<int>, w: seq<real>, cos: real -> real, c: nat,
                       phi: real, fir: seq<real>, wave: seq<real>)
    requires |buf0| == BufferLength && |w| == BufferLength && c < SamplesPerSymbol * |data|
    requires phi == Phase(buf0, data, w, c)
    requires fir == FirTrace(buf0, data, w, c) && wave == WaveTrace(buf0, data, w, cos, c)
    ensures Register(buf0, data, c + 1) == Tick(Register(buf0, data, c), SymbolInput(data, c), c)
    ensures var y := Dot(Register(buf0, data, c + 1), w);
      Phase(buf0, data, w, c + 1) == AdvancePhase(phi, y) &&
      FirTrace(buf0, data, w, c + 1) == fir + [FirSample(y)] &&
      WaveTrace(buf0, data, w, cos, c + 1) == wave + [Carrier(cos, c, AdvancePhase(phi, y))]
  {
  }

  /**
   * The tick loop of the modulator. Each bit of `data` is held for exactly
   * SamplesPerSymbol ticks; on every tick the symbol amplitude times
   * F_symbol is fed to the shaper, the output is integrated into the phase
   * and one carrier sample is produced. `dataWave` is the per-tick bit that
   * the Python model only plots.
   */
  method Modulate(shaper: GaussianFilter, data: seq<int>, cos: real -> real)
    returns (wave: seq<real>, cycle: nat, dataFirWave: seq<real>)
    requires shaper.Valid()
    modifies shaper.samples
    ensures shaper.Valid()
    ensures cycle == SamplesPerSymbol * |data|
    ensures shaper.samples[..] == Register(old(shaper.samples[..]), data, cycle)
    ensures dataFirWave == FirTrace(old(shaper.samples[..]), data, shaper.weights, cycle)
    ensures wave == WaveTrace(old(shaper.samples[..]), data, shaper.weights, cos, cycle)
  {
    ghost var buf0 := shaper.samples[..];
    ghost var ticks := SamplesPerSymbol * |data|;
    assert ticks == 32 * |data|;
    var dataIdx := 0;
    cycle := 0;
    var phi := 0.0;
    wave, dataFirWave := [], [];
    while dataIdx < |data|
      invariant shaper.Valid()
      invariant cycle <= ticks
      invariant dataIdx == cycle / SamplesPerSymbol
      invariant shaper.samples[..] == Register(buf0, data, cycle)
      invariant phi == Phase(buf0, data, shaper.weights, cycle)
      invariant dataFirWave == FirTrace(buf0, data, shaper.weights, cycle)
      invariant wave == WaveTrace(buf0, data, shaper.weights, cos, cycle)
      decreases ticks - cycle
    {
      assert cycle < ticks by {
        TickInRun(cycle, |data|);
      }
      var bit := data[dataIdx];
      var a := if bit != 0 then 1.0 else -1.0;
      assert a * FSymbol == SymbolInput(data, cycle);
      ModulationStep(buf0, data, shaper.weights, cos, cycle, phi, dataFirWave, wave);
      var firResult := shaper.Step(a * FSymbol, cycle);
      dataFirWave := dataFirWave + [FirSample(firResult)];
      phi := AdvancePhase(phi, firResult);
      wave := wave + [Carrier(cos, cycle, phi)];
      cycle := cycle + 1;
      dataIdx := cycle / SamplesPerSymbol;
    }
    TickInRun(cycle, |data|);
  }

  /** The data_fir_wave list after n ticks: each shaper output divided by F_symbol, in tick order. */
  function FirTrace(buf0: seq<real>, data: seq<int>, w: seq<real>, n: nat): (r: seq<real>)
    requires |buf0| == BufferLength && |w| == BufferLength && n <= SamplesPerSymbol * |data|
    ensures |r| == n
  {
    if n == 0 then [] else FirTrace(buf0, data, w, n - 1) + [FirSample(ShaperOutput(buf0, data, w, n - 1))]
  }

  /** The wave list after n ticks: the carrier sample of each tick, taken with the phase accumulated through that tick. */
  function WaveTrace(buf0: seq<real>, data: seq<int>, w: seq<real>, cos: real -> real, n: nat): (r: seq<real>)
    requires |buf0| == BufferLength && |w| == BufferLength && n <= SamplesPerSymbol * |data|
    ensures |r| == n
  {
    if n == 0 then [] else WaveTrace(buf0, data, w, cos, n - 1) + [Carrier(cos, n - 1, Phase(buf0, data, w, n))]
  }

  /** Entry c of data_fir_wave is the shaper output of tick c over F_symbol, however long the run. */
  lemma {:induction false} FirTraceEntry(buf0: seq<real>, data: seq<int>, w: seq<real>, n: nat, c: nat)
    requires |buf0| == BufferLength && |w| == BufferLength && n <= SamplesPerSymbol * |data| && c < n
    ensures FirTrace(buf0, data, w, n)[c] == FirSample(ShaperOutput(buf0, data, w, c))
  {
    if c < n - 1 {
      FirTraceEntry(buf0, data, w, n - 1, c);
    }
  }

  // Tick arithmetic. Each lemma rewrites the products of the named clock
  // constants into their literal values, which keeps the arithmetic linear.

  /** Tick j of symbol k is tick SamplesPerSymbol * k + j of the run. */
  lemma SymbolOfTick(k: nat, j: nat)
    requires j < SamplesPerSymbol
    ensures (SamplesPerSymbol * k) / SamplesPerSymbol == k
    ensures (SamplesPerSymbol * k + j) / SamplesPerSymbol == k
  {
    assert SamplesPerSymbol * k == 32 * k;
  }

  /** Symbols start on a shift tick, so ticks alternate shift, hold, shift, hold within a symbol. */
  lemma ShiftTickInSymbol(k: nat, q: nat)
    ensures IsShiftTick(SamplesPerSymbol * k + 2 * q)
    ensures !IsShiftTick(SamplesPerSymbol * k + 2 * q + 1)
  {
    var h := 16 * k + q;
    assert SamplesPerSymbol * k + 2 * q == 2 * h;
    assert SamplingInterval == 2;
    assert (2 * h) % 2 == 0 && (2 * h + 1) % 2 == 1;
  }

  /** Symbol boundaries are ordered like the symbols. */
  lemma SymbolBoundary(k: nat, n: nat)
    requires k <= n
    ensures SamplesPerSymbol * k <= SamplesPerSymbol * n
    ensures SamplesPerSymbol * (k + 1) == SamplesPerSymbol * k + SamplesPerSymbol
  {
    assert SamplesPerSymbol * k == 32 * k && SamplesPerSymbol * n == 32 * n;
    assert SamplesPerSymbol * (k + 1) == 32 * k + 32;
  }

  /** A tick lies inside the first n symbols exactly when its symbol index is below n. */
  lemma TickInRun(c: nat, n: nat)
    ensures c / SamplesPerSymbol < n <==> c < SamplesPerSymbol * n
  {
    assert SamplesPerSymbol * n == 32 * n;
  }

  /** Moving from tick i to tick i + 1 completes a symbol exactly when i is a symbol's last tick. */
  lemma NextTick(i: nat)
    ensures (i + 1) / SamplesPerSymbol ==
      i / SamplesPerSymbol + (if i % SamplesPerSymbol == SamplesPerSymbol - 1 then 1 else 0)
    ensures (i + 1) % SamplesPerSymbol != 0 ==> WindowStart(i + 1) == WindowStart(i)
    ensures (i + 1) % SamplesPerSymbol == 0 ==> WindowStart(i + 1) == i + 1
    ensures i % SamplesPerSymbol == SamplesPerSymbol - 1 ==>
      WindowStart(i) == SamplesPerSymbol * (i / SamplesPerSymbol) &&
      SamplesPerSymbol * (i / SamplesPerSymbol + 1) == i + 1
  {
    assert SamplesPerSymbol * (i / SamplesPerSymbol) == 32 * (i / 32);
    assert SamplesPerSymbol * (i / SamplesPerSymbol + 1) == 32 * (i / 32 + 1);
  }

  /** The first tick of i's symbol window is SamplesPerSymbol times i's symbol index. */
  lemma SymbolFloor(i: nat)
    ensures WindowStart(i) == SamplesPerSymbol * (i / SamplesPerSymbol) <= i
  {
    assert SamplesPerSymbol * (i / SamplesPerSymbol) == 32 * (i / 32);
  }

  /** The last tick of symbol k, for a symbol that ends within the first `cycle` ticks. */
  lemma LastTickOfSymbol(k: nat, cycle: nat)
    requires k < cycle / SamplesPerSymbol
    ensures SamplesPerSymbol * k + SamplesPerSymbol - 1 < cycle
    ensures SamplesPerSymbol * (k + 1) == SamplesPerSymbol * k + SamplesPerSymbol
    ensures WindowStart(SamplesPerSymbol * k + SamplesPerSymbol - 1) == SamplesPerSymbol * k
  {
    assert SamplesPerSymbol * k == 32 * k;
    assert SamplesPerSymbol * (k + 1) == 32 * k + 32;
  }

  /**
   * r1 is r0 after p pushes of x: p copies of x in front, then the oldest
   * entries of r0, which moved back by p slots.
   */
  predicate Pushed(r1: seq<real>, r0: seq<real>, x: real, p: nat)
    requires |r1| == BufferLength && |r0| == BufferLength && p <= BufferLength
  {
    (forall i :: 0 <= i < p ==> r1[i] == x) &&
    (forall j :: 0 <= j < BufferLength - p ==> r1[p + j] == r0[j])
  }

  /** p - 1 pushes of x followed by one more are p pushes of x. */
  lemma PushedTwice(r0: seq<real>, r1: seq<real>, r2: seq<real>, x: real, p: nat)
    requires |r0| == BufferLength && |r1| == BufferLength && |r2| == BufferLength && 0 < p <= BufferLength
    requires Pushed(r1, r0, x, p - 1) && Pushed(r2, r1, x, 1)
    ensures Pushed(r2, r0, x, p)
  {
    forall i | 0 <= i < p
      ensures r2[i] == x
    {
      if i > 0 {
        assert r2[1 + (i - 1)] == r1[i - 1];
      }
    }
    forall j | 0 <= j < BufferLength - p
      ensures r2[p + j] == r0[j]
    {
      assert r2[1 + (p - 1 + j)] == r1[p - 1 + j];
    }
  }

  /** A shift tick followed by a hold tick pushes the shift tick's input once. */
  lemma TwoTicks(buf0: seq<real>, data: seq<int>, c: nat, x: real)
    requires |buf0| == BufferLength && c + 2 <= SamplesPerSymbol * |data|
    requires IsShiftTick(c) && !IsShiftTick(c + 1) && SymbolInput(data, c) == x
    ensures Pushed(Register(buf0, data, c + 2), Register(buf0, data, c), x, 1)
  {
    var r0 := Register(buf0, data, c);
    assert Register(buf0, data, c + 1) == [x] + r0[..BufferLength - 1];
    assert Register(buf0, data, c + 2) == Register(buf0, data, c + 1);
  }

  /** Within a symbol starting at tick `start` with input x, each pair of ticks (a shift tick, then a hold tick) pushes one more copy of x. */
  lemma {:induction false} RegisterWithinSymbol(buf0: seq<real>, data: seq<int>, k: nat, start: nat, p: nat)
    requires |buf0| == BufferLength && p <= OversamplingFactor
    requires k < |data| && start == SamplesPerSymbol * k
    requires start + SamplesPerSymbol <= SamplesPerSymbol * |data|
    ensures Pushed(Register(buf0, data, start + 2 * p), Register(buf0, data, start), Amplitude(data[k]) * FSymbol, p)
  {
    var x := Amplitude(data[k]) * FSymbol;
    if p == 0 {
      assert Pushed(Register(buf0, data, start), Register(buf0, data, start), x, 0);
    } else {
      var c := start + 2 * (p - 1);
      var r0, r1, r2 := Register(buf0, data, start), Register(buf0, data, c), Register(buf0, data, start + 2 * p);
      assert Pushed(r1, r0, x, p - 1) by {
        RegisterWithinSymbol(buf0, data, k, start, p - 1);
      }
      assert Pushed(r2, r1, x, 1) by {
        assert c + 2 == start + 2 * p;
        assert IsShiftTick(c) && !IsShiftTick(c + 1) && SymbolInput(data, c) == x by {
          ShiftTickInSymbol(k, p - 1);
          SymbolOfTick(k, 2 * (p - 1));
        }
        TwoTicks(buf0, data, c, x);
      }
      PushedTwice(r0, r1, r2, x, p);
    }
  }

  /**
   * A whole symbol enters the register as exactly OversamplingFactor copies
   * of its input, in front of the older entries, which move back by as many
   * slots.
   */
  lemma SymbolFillsSlots(buf0: seq<real>, data: seq<int>, k: nat, start: nat)
    requires |buf0| == BufferLength && k < |data| && start == SamplesPerSymbol * k
    ensures start + SamplesPerSymbol <= SamplesPerSymbol * |data|
    ensures Pushed(Register(buf0, data, start + SamplesPerSymbol), Register(buf0, data, start),
                   Amplitude(data[k]) * FSymbol, OversamplingFactor)
  {
    assert start + 2 * OversamplingFactor == start + SamplesPerSymbol;
    SymbolBoundary(k + 1, |data|);
    RegisterWithinSymbol(buf0, data, k, start, OversamplingFactor);
  }

  /**
   * At a symbol boundary the first SymbolSpan * OversamplingFactor register
   * entries hold the most recent symbols, newest first, OversamplingFactor
   * entries each: entry i holds the input of the symbol i / 16 places back.
   */
  lemma {:induction false} RegisterHoldsRecentSymbols(buf0: seq<real>, data: seq<int>, k: nat, start: nat, i: nat)
    requires |buf0| == BufferLength && k <= |data|
    requires start == SamplesPerSymbol * k && start <= SamplesPerSymbol * |data|
    requires i < SymbolSpan * OversamplingFactor && i / OversamplingFactor < k
    ensures Register(buf0, data, start)[i] == Amplitude(data[k - 1 - i / OversamplingFactor]) * FSymbol
  {
    var prev := start - SamplesPerSymbol;
    assert prev == SamplesPerSymbol * (k - 1) && start == prev + SamplesPerSymbol by {
      SymbolBoundary(k - 1, k);
    }
    SymbolFillsSlots(buf0, data, k - 1, prev);
    var r := Register(buf0, data, start);
    if i < OversamplingFactor {
      assert i / OversamplingFactor == 0;
      assert r[i] == Amplitude(data[k - 1]) * FSymbol;
    } else {
      RegisterHoldsRecentSymbols(buf0, data, k - 1, prev, i - OversamplingFactor);
      assert (i - OversamplingFactor) / OversamplingFactor == i / OversamplingFactor - 1;
      assert r[OversamplingFactor + (i - OversamplingFactor)] == Register(buf0, data, prev)[i - OversamplingFactor];
    }
  }


  /** Symbol inputs are the only values that ever enter: every entry stays 0 or +-F_symbol. */
  predicate IsRegisterValue(v: real)
  {
    v == 0.0 || v == FSymbol || v == -FSymbol
  }

  lemma {:induction false} RegisterValues(buf0: seq<real>, data: seq<int>, n: nat)
    requires |buf0| > 0 && n <= SamplesPerSymbol * |data|
    requires forall i :: 0 <= i < |buf0| ==> IsRegisterValue(buf0[i])
    ensures forall i :: 0 <= i < |buf0| ==> IsRegisterValue(Register(buf0, data, n)[i])
  {
    if n > 0 {
      RegisterValues(buf0, data, n - 1);
      var prev := Register(buf0, data, n - 1);
      var x := SymbolInput(data, n - 1);
      assert IsRegisterValue(x);
      forall i | 0 <= i < |buf0|
        ensures IsRegisterValue(Register(buf0, data, n)[i])
      {
        if IsShiftTick(n - 1) && i > 0 {
          assert Register(buf0, data, n)[i] == prev[i - 1];
        }
      }
    }
  }

  /**
   * From a register holding only zeros and symbol inputs (a fresh one
   * included), and with non-negative weights such as the Gaussian table,
   * every shaper output is at most F_symbol times the weight total in
   * magnitude, so every data_fir_wave entry is at most the weight total.
   */
  lemma ShaperOutputBound(buf0: seq<real>, data: seq<int>, w: seq<real>, c: nat)
    requires |buf0| == BufferLength && |w| == BufferLength && c < SamplesPerSymbol * |data|
    requires forall i :: 0 <= i < |buf0| ==> IsRegisterValue(buf0[i])
    requires forall i :: 0 <= i < |w| ==> w[i] >= 0.0
    ensures -(FSymbol * Total(w)) <= ShaperOutput(buf0, data, w, c) <= FSymbol * Total(w)
  {
    RegisterValues(buf0, data, c + 1);
    DotBound(Register(buf0, data, c + 1), w);
  }

  // ---------------------------------------------------------------------
  // Demodulators
  // ---------------------------------------------------------------------

  /** t[lo] + ... + t[hi - 1], added left to right. */
  function WindowSum(t: seq<real>, lo: nat, hi: nat): real
    requires lo <= hi <= |t|
    decreases hi
  {
    if hi == lo then 0.0 else WindowSum(t, lo, hi - 1) + t[hi - 1]
  }

  /** The first tick of the symbol window containing tick i. */
  function WindowStart(i: nat): (s: nat)
    ensures s <= i && s % SamplesPerSymbol == 0 && i - s < SamplesPerSymbol
  {
    i - i % SamplesPerSymbol
  }

  /** A window whose every term is positive has a positive sum. */
  lemma {:induction false} WindowSumPositive(t: seq<real>, lo: nat, hi: nat)
    requires lo < hi <= |t|
    requires forall i :: lo <= i < hi ==> t[i] > 0.0
    ensures WindowSum(t, lo, hi) > 0.0
  {
    if hi - 1 > lo {
      WindowSumPositive(t, lo, hi - 1);
    }
  }

  /** The contribution of tick i to a correlation integral: wave[i] * cos(omega * i / F_sample) * 1 / F_sample. */
  function CorrelationTerm(wave: seq<real>, i: nat, omega: real, cos: real -> real): real
    requires i < |wave|
  {
    OverFSample(wave[i] * cos(OverFSample(omega * (i as real))))
  }

  /** The contributions of the first n ticks. */
  function CorrelationTerms(wave: seq<real>, n: nat, omega: real, cos: real -> real): (t: seq<real>)
    requires n <= |wave|
    ensures |t| == n
    ensures forall i :: 0 <= i < n ==> t[i] == CorrelationTerm(wave, i, omega, cos)
  {
    seq(n, i requires 0 <= i < n => CorrelationTerm(wave, i, omega, cos))
  }

  /** The integral trace of a correlation: at tick i, the sum of the terms from the start of i's symbol window through i. */
  function Integral(t: seq<real>, n: nat): (r: seq<real>)
    requires n <= |t|
    ensures |r| == n
  {
    if n == 0 then [] else Integral(t, n - 1) + [WindowSum(t, WindowStart(n - 1), n)]
  }

  lemma {:induction false} IntegralEntry(t: seq<real>, n: nat, i: nat)
    requires i < n <= |t|
    ensures Integral(t, n)[i] == WindowSum(t, WindowStart(i), i + 1)
  {
    if i < n - 1 {
      IntegralEntry(t, n - 1, i);
    }
  }

  /** The decision for symbol k: 1 when the mark correlation over the symbol is smaller in magnitude than the space one. */
  function CoherentBit(t1: seq<real>, t0: seq<real>, k: nat): (b: int)
    requires |t1| == |t0| && SamplesPerSymbol * (k + 1) <= |t1|
    ensures b == 0 || b == 1
    ensures b == 1 <==>
      Abs(WindowSum(t1, SamplesPerSymbol * k, SamplesPerSymbol * (k + 1))) <
      Abs(WindowSum(t0, SamplesPerSymbol * k, SamplesPerSymbol * (k + 1)))
  {
    SymbolBoundary(k, k + 1);
    var lo, hi := SamplesPerSymbol * k, SamplesPerSymbol * (k + 1);
    if Abs(WindowSum(t1, lo, hi)) < Abs(WindowSum(t0, lo, hi)) then 1 else 0
  }

  /** The decisions for the first m symbols. */
  function CoherentGuesses(t1: seq<real>, t0: seq<real>, m: nat): (g: seq<int>)
    requires |t1| == |t0| && SamplesPerSymbol * m <= |t1|
    ensures |g| == m
  {
    if m == 0 then []
    else
      SymbolBoundary(m - 1, m);
      CoherentGuesses(t1, t0, m - 1) + [CoherentBit(t1, t0, m - 1)]
  }

  lemma {:induction false} CoherentGuessEntry(t1: seq<real>, t0: seq<real>, m: nat, k: nat)
    requires |t1| == |t0| && SamplesPerSymbol * m <= |t1| && k < m
    ensures SamplesPerSymbol * (k + 1) <= |t1|
    ensures CoherentGuesses(t1, t0, m)[k] == CoherentBit(t1, t0, k)
  {
    SymbolBoundary(k + 1, m);
    SymbolBoundary(m - 1, m);
    if k < m - 1 {
      CoherentGuessEntry(t1, t0, m - 1, k);
    }
  }

  /**
   * One tick of a running integral: the tick's term plus the base (the
   * previous value, or zero on a symbol's first tick) is the sum over the
   * window so far, and it extends the trace.
   */
  lemma IntegralStep(t: seq<real>, i: nat, tracker: real, base: real, next: real)
    requires i < |t|
    requires i > 0 ==> tracker == Integral(t, i)[i - 1]
    requires base == if i % SamplesPerSymbol != 0 then tracker else 0.0
    requires next == t[i] + base
    ensures next == WindowSum(t, WindowStart(i), i + 1)
    ensures Integral(t, i + 1) == Integral(t, i) + [next]
  {
    if i % SamplesPerSymbol != 0 {
      NextTick(i - 1);
    }
  }

  /** Appending the decision taken from the two sums over symbol m extends the decisions for the first m symbols. */
  lemma AppendGuess(t1: seq<real>, t0: seq<real>, m: nat, x1: real, x0: real)
    requires |t1| == |t0| && SamplesPerSymbol * (m + 1) <= |t1|
    requires x1 == WindowSum(t1, SamplesPerSymbol * m, SamplesPerSymbol * (m + 1))
    requires x0 == WindowSum(t0, SamplesPerSymbol * m, SamplesPerSymbol * (m + 1))
    ensures SamplesPerSymbol * m <= |t1|
    ensures CoherentGuesses(t1, t0, m + 1) == CoherentGuesses(t1, t0, m) + [if Abs(x1) < Abs(x0) then 1 else 0]
  {
    SymbolBoundary(m, m + 1);
  }

  /** On a symbol's last tick the decision for that symbol is appended. */
  lemma LastTickGuess(t1: seq<real>, t0: seq<real>, i: nat, x1: real, x0: real)
    requires |t1| == |t0| && i < |t1| && i % SamplesPerSymbol == SamplesPerSymbol - 1
    requires x1 == WindowSum(t1, WindowStart(i), i + 1) && x0 == WindowSum(t0, WindowStart(i), i + 1)
    ensures SamplesPerSymbol * (i / SamplesPerSymbol) <= i
    ensures CoherentGuesses(t1, t0, (i + 1) / SamplesPerSymbol) ==
      CoherentGuesses(t1, t0, i / SamplesPerSymbol) + [if Abs(x1) < Abs(x0) then 1 else 0]
  {
    NextTick(i);
    AppendGuess(t1, t0, i / SamplesPerSymbol, x1, x0);
  }

  /** What the coherent demodulator carries from tick to tick. */
  datatype CoherentState = CoherentState(
    w1Integral: seq<real>, w0Integral: seq<real>,
    w1Tracker: real, w0Tracker: real,
    guess: seq<int>)

  /**
   * One tick i of the coherent demodulator: each tracker restarts from zero
   * on a symbol's first tick and otherwise adds the tick's correlation term
   * to its previous value; both are appended to their traces, and on a
   * symbol's last tick one decision is appended.
   */
  function CoherentTick(s: CoherentState, wave: seq<real>, i: nat, cos: real -> real): CoherentState
    requires i < |wave|
  {
    var w1 := CorrelationTerm(wave, i, Omega1, cos) + (if i % SamplesPerSymbol != 0 then s.w1Tracker else 0.0);
    var w0 := CorrelationTerm(wave, i, Omega0, cos) + (if i % SamplesPerSymbol != 0 then s.w0Tracker else 0.0);
    CoherentState(s.w1Integral + [w1], s.w0Integral + [w0], w1, w0,
      if i % SamplesPerSymbol == SamplesPerSymbol - 1 then s.guess + [if Abs(w1) < Abs(w0) then 1 else 0] else s.guess)
  }

  /** The fields of the state after tick i, in terms of the state before it. */
  lemma CoherentTickFields(s: CoherentState, wave: seq<real>, i: nat, cos: real -> real)
    requires i < |wave|
    ensures var s' := CoherentTick(s, wave, i, cos);
      s'.w1Tracker == CorrelationTerm(wave, i, Omega1, cos) + (if i % SamplesPerSymbol != 0 then s.w1Tracker else 0.0) &&
      s'.w0Tracker == CorrelationTerm(wave, i, Omega0, cos) + (if i % SamplesPerSymbol != 0 then s.w0Tracker else 0.0) &&
      s'.w1Integral == s.w1Integral + [s'.w1Tracker] && s'.w0Integral == s.w0Integral + [s'.w0Tracker] &&
      s'.guess == s.guess + (if i % SamplesPerSymbol == SamplesPerSymbol - 1 then [if Abs(s'.w1Tracker) < Abs(s'.w0Tracker) then 1 else 0] else [])
  {
  }

  /** The coherent demodulator's state after the first n ticks. */
  function CoherentRun(wave: seq<real>, cos: real -> real, n: nat): CoherentState
    requires n <= |wave|
  {
    if n == 0 then CoherentState([], [], 0.0, 0.0, [])
    else CoherentTick(CoherentRun(wave, cos, n - 1), wave, n - 1, cos)
  }

  /** The fields of the state after tick i + 1, in terms of the state after tick i. */
  lemma CoherentRunStep(wave: seq<real>, cos: real -> real, i: nat)
    requires i < |wave|
    ensures var s, s' := CoherentRun(wave, cos, i), CoherentRun(wave, cos, i + 1);
      s'.w1Tracker == CorrelationTerm(wave, i, Omega1, cos) + (if i % SamplesPerSymbol != 0 then s.w1Tracker else 0.0) &&
      s'.w0Tracker == CorrelationTerm(wave, i, Omega0, cos) + (if i % SamplesPerSymbol != 0 then s.w0Tracker else 0.0) &&
      s'.w1Integral == s.w1Integral + [s'.w1Tracker] && s'.w0Integral == s.w0Integral + [s'.w0Tracker] &&
      s'.guess == if i % SamplesPerSymbol == SamplesPerSymbol - 1 then s.guess + [if Abs(s'.w1Tracker) < Abs(s'.w0Tracker) then 1 else 0] else s.guess
  {
    CoherentTickFields(CoherentRun(wave, cos, i), wave, i, cos);
  }

  /**
   * After n ticks of a run of `cycle` ticks, the traces are the running
   * integrals of the correlation terms, each restarted at every symbol
   * boundary, and the trackers are the traces' last entries.
   */
  lemma {:induction false} CoherentRunIntegrates(wave: seq<real>, cycle: nat, cos: real -> real, n: nat)
    requires n <= cycle <= |wave|
    ensures CoherentRun(wave, cos, n).w1Integral == Integral(CorrelationTerms(wave, cycle, Omega1, cos), n)
    ensures CoherentRun(wave, cos, n).w0Integral == Integral(CorrelationTerms(wave, cycle, Omega0, cos), n)
    ensures n > 0 ==> CoherentRun(wave, cos, n).w1Tracker == CoherentRun(wave, cos, n).w1Integral[n - 1]
    ensures n > 0 ==> CoherentRun(wave, cos, n).w0Tracker == CoherentRun(wave, cos, n).w0Integral[n - 1]
  {
    if n > 0 {
      var i := n - 1;
      var s, s' := CoherentRun(wave, cos, i), CoherentRun(wave, cos, n);
      var t1, t0 := CorrelationTerms(wave, cycle, Omega1, cos), CorrelationTerms(wave, cycle, Omega0, cos);
      CoherentRunIntegrates(wave, cycle, cos, i);
      var b1 := if i % SamplesPerSymbol != 0 then s.w1Tracker else 0.0;
      var b0 := if i % SamplesPerSymbol != 0 then s.w0Tracker else 0.0;
      var a1, a0 := t1[i] + b1, t0[i] + b0;
      CoherentTickFields(s, wave, i, cos);
      assert s'.w1Tracker == a1 && s'.w1Integral == s.w1Integral + [a1];
      assert s'.w0Tracker == a0 && s'.w0Integral == s.w0Integral + [a0];
      IntegralStep(t1, i, s.w1Tracker, b1, a1);
      IntegralStep(t0, i, s.w0Tracker, b0, a0);
    }
  }

  /**
   * The decisions taken along two integral traces: one per symbol's last
   * tick, 1 when the mark entry is smaller in magnitude than the space one.
   */
  function Decisions(x1: seq<real>, x0: seq<real>): (g: seq<int>)
    requires |x1| == |x0|
    decreases |x1|
  {
    if |x1| == 0 then []
    else
      var i := |x1| - 1;
      Decisions(x1[..i], x0[..i]) +
        (if i % SamplesPerSymbol == SamplesPerSymbol - 1 then [if Abs(x1[i]) < Abs(x0[i]) then 1 else 0] else [])
  }

  /** Extending both traces by one tick appends that tick's decision, if it is a symbol's last tick. */
  lemma DecisionsSnoc(x1: seq<real>, x0: seq<real>, a1: real, a0: real)
    requires |x1| == |x0|
    ensures Decisions(x1 + [a1], x0 + [a0]) ==
      Decisions(x1, x0) + (if |x1| % SamplesPerSymbol == SamplesPerSymbol - 1 then [if Abs(a1) < Abs(a0) then 1 else 0] else [])
  {
    assert (x1 + [a1])[..|x1|] == x1 && (x0 + [a0])[..|x0|] == x0;
  }

  /** Along the running integrals, the decisions after n ticks are the per-symbol decisions for the completed symbols. */
  lemma {:induction false} DecisionsMatch(t1: seq<real>, t0: seq<real>, n: nat)
    requires |t1| == |t0| && n <= |t1|
    ensures SamplesPerSymbol * (n / SamplesPerSymbol) <= n
    ensures Decisions(Integral(t1, n), Integral(t0, n)) == CoherentGuesses(t1, t0, n / SamplesPerSymbol)
  {
    SymbolFloor(n);
    if n > 0 {
      var i := n - 1;
      var y1, y0 := Integral(t1, i), Integral(t0, i);
      var a1, a0 := WindowSum(t1, WindowStart(i), n), WindowSum(t0, WindowStart(i), n);
      assert Integral(t1, n) == y1 + [a1] && Integral(t0, n) == y0 + [a0];
      DecisionsSnoc(y1, y0, a1, a0);
      DecisionsMatch(t1, t0, i);
      if i % SamplesPerSymbol == SamplesPerSymbol - 1 {
        LastTickGuess(t1, t0, i, a1, a0);
        assert Decisions(Integral(t1, n), Integral(t0, n)) == Decisions(y1, y0) + [if Abs(a1) < Abs(a0) then 1 else 0];
      } else {
        NextTick(i);
        assert Decisions(Integral(t1, n), Integral(t0, n)) == Decisions(y1, y0);
      }
    }
  }

  /** The demodulator's decisions are those taken along its own integral traces. */
  lemma {:induction false} CoherentRunDecides(wave: seq<real>, cos: real -> real, n: nat)
    requires n <= |wave|
    ensures |CoherentRun(wave, cos, n).w1Integral| == n && |CoherentRun(wave, cos, n).w0Integral| == n
    ensures CoherentRun(wave, cos, n).guess == Decisions(CoherentRun(wave, cos, n).w1Integral, CoherentRun(wave, cos, n).w0Integral)
  {
    if n > 0 {
      var i := n - 1;
      var s, s' := CoherentRun(wave, cos, i), CoherentRun(wave, cos, n);
      CoherentRunDecides(wave, cos, i);
      var a1, a0 := s'.w1Tracker, s'.w0Tracker;
      CoherentTickFields(s, wave, i, cos);
      DecisionsSnoc(s.w1Integral, s.w0Integral, a1, a0);
    }
  }

  /** A whole run of `cycle` ticks yields the integral traces and the per-symbol decisions over them. */
  lemma CoherentRunMeetsSpec(wave: seq<real>, cycle: nat, cos: real -> real)
    requires cycle <= |wave|
    ensures var s, t1, t0 := CoherentRun(wave, cos, cycle), CorrelationTerms(wave, cycle, Omega1, cos), CorrelationTerms(wave, cycle, Omega0, cos);
      s.w1Integral == Integral(t1, cycle) && s.w0Integral == Integral(t0, cycle) &&
      s.guess == CoherentGuesses(t1, t0, cycle / SamplesPerSymbol)
  {
    CoherentRunIntegrates(wave, cycle, cos, cycle);
    CoherentRunDecides(wave, cos, cycle);
    DecisionsMatch(CorrelationTerms(wave, cycle, Omega1, cos), CorrelationTerms(wave, cycle, Omega0, cos), cycle);
  }

  /**
   * The coherent demodulator: two running correlation integrals against the
   * mark and the space tones, both restarted at every symbol boundary; at the
   * last tick of each symbol a bit is decided from the two integrals. The
   * integral traces, which the Python model plots, are returned beside the
   * decisions.
   */
  method CoherentDemod(wave: seq<real>, cycle: nat, cos: real -> real)
    returns (guess: seq<int>, w1Integral: seq<real>, w0Integral: seq<real>)
    requires cycle <= |wave|
    ensures w1Integral == Integral(CorrelationTerms(wave, cycle, Omega1, cos), cycle)
    ensures w0Integral == Integral(CorrelationTerms(wave, cycle, Omega0, cos), cycle)
    ensures guess == CoherentGuesses(CorrelationTerms(wave, cycle, Omega1, cos),
                                     CorrelationTerms(wave, cycle, Omega0, cos), cycle / SamplesPerSymbol)
  {
    guess, w1Integral, w0Integral := [], [], [];
    var w1Tracker, w0Tracker := 0.0, 0.0;
    var i := 0;
    while i < cycle
      invariant 0 <= i <= cycle
      invariant w1Integral == CoherentRun(wave, cos, i).w1Integral
      invariant w0Integral == CoherentRun(wave, cos, i).w0Integral
      invariant w1Tracker == CoherentRun(wave, cos, i).w1Tracker
      invariant w0Tracker == CoherentRun(wave, cos, i).w0Tracker
      invariant guess == CoherentRun(wave, cos, i).guess
    {
      var w1Base := if i % SamplesPerSymbol != 0 then w1Tracker else 0.0;
      w1Tracker := CorrelationTerm(wave, i, Omega1, cos) + w1Base;
      w1Integral := w1Integral + [w1Tracker];

      var w0Base := if i % SamplesPerSymbol != 0 then w0Tracker else 0.0;
      w0Tracker := CorrelationTerm(wave, i, Omega0, cos) + w0Base;
      w0Integral := w0Integral + [w0Tracker];

      if i % SamplesPerSymbol == SamplesPerSymbol - 1 {
        guess := guess + [if Abs(w1Tracker) < Abs(w0Tracker) then 1 else 0];
      }
      CoherentRunStep(wave, cos, i);
      i := i + 1;
    }
    CoherentRunMeetsSpec(wave, cycle, cos);
  }

  /**
   * Each decision is 0 or 1, and it is 1 exactly when, at the symbol's last
   * tick, the mark integral is smaller in magnitude than the space integral.
   */
  lemma CoherentDecision(wave: seq<real>, cycle: nat, cos: real -> real, k: nat)
    requires cycle <= |wave| && k < cycle / SamplesPerSymbol
    ensures SamplesPerSymbol * k + SamplesPerSymbol - 1 < cycle
    ensures var t1, t0 := CorrelationTerms(wave, cycle, Omega1, cos), CorrelationTerms(wave, cycle, Omega0, cos);
      var g := CoherentGuesses(t1, t0, cycle / SamplesPerSymbol)[k];
      var last := SamplesPerSymbol * k + SamplesPerSymbol - 1;
      (g == 0 || g == 1) &&
      (g == 1 <==> Abs(Integral(t1, cycle)[last]) < Abs(Integral(t0, cycle)[last]))
  {
    var t1, t0 := CorrelationTerms(wave, cycle, Omega1, cos), CorrelationTerms(wave, cycle, Omega0, cos);
    var m, last := cycle / SamplesPerSymbol, SamplesPerSymbol * k + SamplesPerSymbol - 1;
    LastTickOfSymbol(k, cycle);
    assert SamplesPerSymbol * m <= cycle by {
      SymbolFloor(cycle);
    }
    CoherentGuessEntry(t1, t0, m, k);
    assert Integral(t1, cycle)[last] == WindowSum(t1, SamplesPerSymbol * k, SamplesPerSymbol * (k + 1)) by {
      IntegralEntry(t1, cycle, last);
    }
    assert Integral(t0, cycle)[last] == WindowSum(t0, SamplesPerSymbol * k, SamplesPerSymbol * (k + 1)) by {
      IntegralEntry(t0, cycle, last);
    }
  }

  /** Per-tick envelope differences w1_envelope[i] - w0_envelope[i]. */
  function EnvelopeDifference(w1Envelope: seq<real>, w0Envelope: seq<real>, n: nat): (d: seq<real>)
    requires n <= |w1Envelope| && n <= |w0Envelope|
    ensures |d| == n
  {
    seq(n, i requires 0 <= i < n => w1Envelope[i] - w0Envelope[i])
  }

  /**
   * The decision loop of the non-coherent demodulator, given the two
   * envelopes: the per-tick sign of their difference, and one bit per symbol
   * that is 1 when the difference summed over the symbol is positive; the
   * running sum restarts after every decision.
   */
  method NoncoherentDecide(w1Envelope: seq<real>, w0Envelope: seq<real>, cycle: nat)
    returns (guess: seq<int>, demodWave: seq<int>)
    requires cycle <= |w1Envelope| && cycle <= |w0Envelope|
    ensures |demodWave| == cycle
    ensures forall i :: 0 <= i < cycle ==> demodWave[i] == 1 || demodWave[i] == -1
    ensures forall i :: 0 <= i < cycle ==> (demodWave[i] == 1 <==> w1Envelope[i] > w0Envelope[i])
    ensures |guess| == cycle / SamplesPerSymbol
    ensures forall k :: 0 <= k < |guess| ==> guess[k] == 0 || guess[k] == 1
    ensures forall k :: 0 <= k < |guess| ==>
      (guess[k] == 1 <==>
        WindowSum(EnvelopeDifference(w1Envelope, w0Envelope, cycle), SamplesPerSymbol * k, SamplesPerSymbol * (k + 1)) > 0.0)
  {
    ghost var d := EnvelopeDifference(w1Envelope, w0Envelope, cycle);
    guess, demodWave := [], [];
    var trackingSum := 0.0;
    var i := 0;
    while i < cycle
      invariant 0 <= i <= cycle
      invariant |demodWave| == i
      invariant forall j :: 0 <= j < i ==> (demodWave[j] == 1 || demodWave[j] == -1)
      invariant forall j :: 0 <= j < i ==> (demodWave[j] == 1 <==> w1Envelope[j] > w0Envelope[j])
      invariant |guess| == i / SamplesPerSymbol
      invariant trackingSum == WindowSum(d, WindowStart(i), i)
      invariant forall k :: 0 <= k < |guess| ==>
        (guess[k] == 0 || guess[k] == 1) &&
        (guess[k] == 1 <==> WindowSum(d, SamplesPerSymbol * k, SamplesPerSymbol * (k + 1)) > 0.0)
    {
      trackingSum := trackingSum + (w1Envelope[i] - w0Envelope[i]);
      demodWave := demodWave + [if w1Envelope[i] > w0Envelope[i] then 1 else -1];
      if i % SamplesPerSymbol == SamplesPerSymbol - 1 {
        assert WindowStart(i) == SamplesPerSymbol * (i / SamplesPerSymbol);
        assert SamplesPerSymbol * (i / SamplesPerSymbol + 1) == i + 1;
        guess := guess + [if trackingSum > 0.0 then 1 else 0];
        trackingSum := 0.0;
      }
      i := i + 1;
    }
  }

  /** When the mark envelope exceeds the space envelope on every tick of a symbol, that symbol is decided 1. */
  lemma UnanimousWindow(w1Envelope: seq<real>, w0Envelope: seq<real>, cycle: nat, k: nat)
    requires cycle <= |w1Envelope| && cycle <= |w0Envelope|
    requires SamplesPerSymbol * (k + 1) <= cycle
    requires forall i :: SamplesPerSymbol * k <= i < SamplesPerSymbol * (k + 1) ==> w1Envelope[i] > w0Envelope[i]
    ensures WindowSum(EnvelopeDifference(w1Envelope, w0Envelope, cycle), SamplesPerSymbol * k, SamplesPerSymbol * (k + 1)) > 0.0
  {
    WindowSumPositive(EnvelopeDifference(w1Envelope, w0Envelope, cycle), SamplesPerSymbol * k, SamplesPerSymbol * (k + 1));
  }
}
