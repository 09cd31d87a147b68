# BLE baseband models in Dafny

This project models the two Python reference models of the BLE baseband:

- **The GFSK modem** (`software/models/modem.py`), in `Modem.dfy`. The
  modulator holds each bit for 32 ticks of the 32 MHz clock. It feeds
  +-F_symbol into a 97-entry Gaussian shift register that advances every
  second tick. It integrates the register's weighted sum into the phase and
  emits one carrier sample per tick. The coherent demodulator correlates the
  wave against the mark and space tones. It restarts both integrals at every
  symbol boundary and decides each bit from the magnitudes at the symbol's
  last tick. The non-coherent demodulator decides each bit from the sign of
  the envelope difference summed over the symbol.
- **The image-rejection front end** (`software/models/image_rejection.py`),
  in `ImageRejection.dfy`. This covers:
  - the 29-tap Hilbert transformer, built by modulating a half-band
    prototype with 2 sin(i pi / 2);
  - the two loops that run it, `fir` and `hilbert_transform`;
  - the 5-bit quantizer;
  - the ADC resampler, which takes its full-scale window from the signal's
    own minimum and maximum, so it is proved blind to a positive gain and
    any offset on its input;
  - the recentring of the codes before they are stored as 6-bit signed
    fixed point.

Samples are exact reals. The cosine is a parameter `cos: real -> real`, so
the modem properties are about structure: what the register holds, how
ticks fall into symbols, and which sums the decisions compare. They hold for
any cosine.

The modem keeps its shift register in a module-level list that
`gaussian_fir` updates in place. It is modelled as the class
`GaussianFilter`, whose array field `samples` is shifted in place. The
modulator takes that object as a parameter. The modulator loop, the two
filter loops and the coherent demodulator loop are methods proved equal to
reference functions (`Register`/`FirTrace`/`WaveTrace`, `FirSpec`,
`HilbertSpec`, `Integral`/`CoherentGuesses`), and the properties are proved
about those functions. The non-coherent decision loop is a method whose
contract states its per-tick and per-symbol results directly.

## Model

| member | source | states |
|---|---|---|
| Modem.DerivedConstants | software/models/modem.py:7-22 | F_sample / F_symbol is 32 ticks per symbol; the FIR register shifts every 2 ticks and holds 16 * 6 + 1 = 97 entries; wF, the mark tone and the space tone are 2 pi times F, F + F_offset and F - F_offset; the two scalings are division by F_sample and by F_symbol |
| Modem.WeightCount | software/models/modem.py:59-72 | the weight table has as many entries as the register |
| Modem.WeightTable | software/models/modem.py:61-72 | the Gaussian weights are symmetric about the centre tap 48, and every weight is strictly positive |
| Modem.GaussianFilter.constructor | software/models/modem.py:59-72 | a fresh shaper has a 97-entry register of zeros and the Gaussian weight table |
| Modem.GaussianFilter.Step | software/models/modem.py:74-78 | on a shift tick (cycle % 2 == 0) the register moves up by one place and the sample enters at index 0; otherwise the register is unchanged; the result is the weighted sum of the new register |
| Modem.GaussianFilter.Shift | software/models/modem.py:76-77 | the in-place shift drops the oldest entry, moves every other entry up one place and stores the sample at index 0 |
| Modem.GaussianFilter.Output | software/models/modem.py:78 | the loop accumulates the left-to-right sum of register entry times weight |
| Modem.Tick | software/models/modem.py:75-77 | one tick keeps the register length |
| Modem.ZeroInZeroOut | software/models/modem.py:74-78 | a zeroed register fed zero stays zero and outputs zero, on any tick |
| Modem.DotOfZeros | software/models/modem.py:78 | a register of zeros gives a zero weighted sum, whatever the weights |
| Modem.DotBound | software/models/modem.py:78 | with non-negative weights and entries within +-F_symbol, the weighted sum lies within F_symbol times the weight total |
| Modem.Amplitude | software/models/modem.py:177 | a_i is +1 or -1, and it is +1 exactly when the bit is non-zero |
| Modem.Register | software/models/modem.py:175-185 | the register after n ticks keeps its length |
| Modem.ModulationStep | software/models/modem.py:178-182 | unfolding step (proof plumbing): one tick extends the register by that tick's input; it advances the phase by the output over F_sample; it appends output / F_symbol to data_fir_wave and the carrier sample at the new phase to wave |
| Modem.Modulate | software/models/modem.py:159-192 | the loop runs exactly 32 ticks per bit; afterwards the register, data_fir_wave and wave equal the reference traces for that many ticks from the register the shaper held on entry |
| Modem.FirTrace | software/models/modem.py:179 | data_fir_wave after n ticks has n entries |
| Modem.WaveTrace | software/models/modem.py:181-182 | wave after n ticks has n entries |
| Modem.FirTraceEntry | software/models/modem.py:178-179 | entry c of data_fir_wave is the shaper output of tick c divided by F_symbol, however long the run |
| Modem.RegisterWithinSymbol | software/models/modem.py:75-77 | within a symbol, each shift/hold pair of ticks pushes one more copy of that symbol's input in front of the older entries |
| Modem.SymbolFillsSlots | software/models/modem.py:75-77 | a whole symbol pushes exactly 16 copies of its input, and the older entries move back 16 slots |
| Modem.RegisterHoldsRecentSymbols | software/models/modem.py:74-78 | at a symbol boundary, register entry i (i < 96) holds the input of the symbol i / 16 places back: the FIR spans the last 6 symbols |
| Modem.RegisterValues | software/models/modem.py:177-178 | starting from zeros (or any mix of 0 and +-F_symbol), every register entry is always 0, F_symbol or -F_symbol |
| Modem.ShaperOutputBound | software/models/modem.py:178-179 | with non-negative weights, every shaper output lies within F_symbol times the weight total |
| Modem.WindowStart | software/models/modem.py:94-98 | the start of a tick's symbol window is a multiple of 32 at most 31 ticks back |
| Modem.WindowSumPositive | software/models/modem.py:136-140 | a window of positive terms has a positive sum |
| Modem.CorrelationTerms | software/models/modem.py:95-99 | term i is wave[i] * cos(omega i / F_sample) / F_sample |
| Modem.Integral | software/models/modem.py:94-100 | the integral trace has one entry per tick |
| Modem.IntegralEntry | software/models/modem.py:94-100 | integral entry i is the sum of the terms from the start of i's symbol through i |
| Modem.IntegralStep | software/models/modem.py:94-96 | unfolding step (proof plumbing): adding the tick's term to the tracker (or to 0 on a symbol's first tick) gives the window sum through that tick and extends the trace |
| Modem.CoherentBit | software/models/modem.py:102-103 | the decision is 0 or 1, and it is 1 exactly when the mark sum over the symbol is smaller in magnitude than the space sum |
| Modem.CoherentGuesses | software/models/modem.py:102-103 | one decision per completed symbol |
| Modem.CoherentGuessEntry | software/models/modem.py:102-103 | decision k is the decision for symbol k |
| Modem.CoherentTickFields | software/models/modem.py:94-103 | unfolding step (proof plumbing): one demodulator tick updates the trackers, appends them to the traces and appends a decision only on a symbol's last tick |
| Modem.CoherentRunStep | software/models/modem.py:93-103 | unfolding step (proof plumbing): the state after tick i + 1 is the state after tick i updated as one tick |
| Modem.CoherentRunIntegrates | software/models/modem.py:93-100 | after n ticks the traces are the running correlation integrals restarted at each symbol boundary, and the trackers are their last entries |
| Modem.DecisionsSnoc | software/models/modem.py:102-103 | unfolding step (proof plumbing): one more tick appends a decision exactly on a symbol's last tick |
| Modem.DecisionsMatch | software/models/modem.py:102-103 | the decisions taken along the integral traces are the per-symbol decisions over the completed symbols |
| Modem.CoherentRunDecides | software/models/modem.py:93-103 | the demodulator's guesses are the decisions along its own integral traces |
| Modem.CoherentRunMeetsSpec | software/models/modem.py:80-112 | a run of `cycle` ticks yields the restarted integral traces and one decision per completed symbol |
| Modem.CoherentDemod | software/models/modem.py:80-112 | the loop returns the two integral traces and cycle / 32 guesses, the k-th decided from the two window sums over symbol k |
| Modem.CoherentDecision | software/models/modem.py:102-103 | each guess is 0 or 1, and it is 1 exactly when the mark integral is smaller in magnitude than the space integral at the symbol's last tick |
| Modem.EnvelopeDifference | software/models/modem.py:136 | one difference per tick |
| Modem.NoncoherentDecide | software/models/modem.py:131-141 | demod_wave has one +-1 per tick, +1 exactly when the mark envelope is larger; there are cycle / 32 guesses, each 0 or 1, and guess k is 1 exactly when the envelope difference summed over symbol k is positive |
| Modem.Dot | software/models/modem.py:78 | definition: the left-to-right sum of register entry times weight over the zipped lists |
| Modem.IsShiftTick | software/models/modem.py:75 | definition: the register shifts on ticks where cycle % sampling_interval == 0 |
| Modem.SymbolInput | software/models/modem.py:176-178 | definition: the value fed at tick c is a_i * F_symbol for the bit data[c / 32] |
| Modem.FirSample | software/models/modem.py:179 | definition: a data_fir_wave entry is the shaper output divided by F_symbol |
| Modem.AdvancePhase | software/models/modem.py:180 | definition: the new phase is the shaper output times 1 / F_sample plus the old phase |
| Modem.Phase | software/models/modem.py:180 | definition: the phase after n ticks, folding AdvancePhase over the shaper outputs |
| Modem.Carrier | software/models/modem.py:181 | definition: s_t = A cos(wF * cycle / F_sample + h pi phi_t) |
| Modem.ShaperOutput | software/models/modem.py:178 | definition: fir_results at tick c, the register after c + 1 feeds read against the weights |
| Modem.Decisions | software/models/modem.py:102-103 | definition: one guess per symbol, 1 where the mark integral is smaller in magnitude than the space integral at that symbol's last tick |
| Modem.CorrelationTerm | software/models/modem.py:95-99 | definition: wave[i] * cos(omega i / F_sample) * 1 / F_sample |
| Modem.WindowSum | software/models/modem.py:136-140 | definition: the left-to-right sum of a window of terms, the tracking sum of one symbol |
| Modem.CoherentTick | software/models/modem.py:94-103 | definition: one iteration of the demodulator loop on the trackers, the traces and the guesses |
| Modem.CoherentRun | software/models/modem.py:93-103 | definition: the demodulator state after the first n iterations |
| Modem.UnanimousWindow | software/models/modem.py:135-140 | if the mark envelope is larger on every tick of a symbol, that symbol is decided 1 |
| ImageRejection.HalfBandSymmetric | software/models/image_rejection.py:25 | the prototype has 29 taps and is symmetric about its centre |
| ImageRejection.Modulated | software/models/image_rejection.py:30 | modulation keeps the tap count |
| ImageRejection.FactorMirror | software/models/image_rejection.py:30 | for 4k + 1 taps, 2 sin(i pi / 2) flips sign under mirroring about the centre |
| ImageRejection.ModulatedAntisymmetric | software/models/image_rejection.py:30 | modulating a symmetric 4k + 1 tap prototype gives an antisymmetric filter whose even taps are zero |
| ImageRejection.HilbertTapsAntisymmetric | software/models/image_rejection.py:25-30 | the Hilbert taps are 29, antisymmetric, and zero at every even index |
| ImageRejection.Fir | software/models/image_rejection.py:55-65 | the loop returns max(0, len - tap count) outputs, output k being the convolution at time k + tap count |
| ImageRejection.HilbertTransform | software/models/image_rejection.py:98-108 | the loop returns one output per input, output i being the convolution at time i - 1 |
| ImageRejection.FirIsDelayedHilbert | software/models/image_rejection.py:55-108 | fir output k equals hilbert_transform output k + tap count + 1 of the same signal |
| ImageRejection.HilbertStartsAtZero | software/models/image_rejection.py:100-106 | the first hilbert_transform output is zero, because only padding is in the window |
| ImageRejection.ConvBeforeStart | software/models/image_rejection.py:100-106 | a window that lies wholly in the padding sums to zero |
| ImageRejection.ConvUpToLinear | software/models/image_rejection.py:62-63 | every partial multiply-accumulate is linear in the signal |
| ImageRejection.FiltersLinear | software/models/image_rejection.py:55-108 | both filters map a x + b y to a fir(x) + b fir(y) |
| ImageRejection.ConvUpToOfZeros | software/models/image_rejection.py:62-63 | a zero signal gives zero partial sums |
| ImageRejection.FiltersOfZeros | software/models/image_rejection.py:55-108 | a silent input gives a silent output of the stated length from both filters |
| ImageRejection.ConvUpToOfConstant | software/models/image_rejection.py:62-63 | once the window is inside a constant signal c, the partial sum is c times the sum of the taps |
| ImageRejection.MirrorSumOfAntisymmetric | software/models/image_rejection.py:30 | mirrored pairs of an antisymmetric filter cancel |
| ImageRejection.AntisymmetricSumsToZero | software/models/image_rejection.py:30 | the taps of an antisymmetric filter sum to zero |
| ImageRejection.HilbertRejectsDc | software/models/image_rejection.py:55-108 | with the Hilbert taps, a constant input gives zero from every fir output and from every hilbert_transform output once the window is full |
| ImageRejection.Trunc | software/models/image_rejection.py:81 | int() truncates toward zero |
| ImageRejection.TruncMonotone | software/models/image_rejection.py:81 | truncation toward zero never reverses the order of two values |
| ImageRejection.QuantizeBounds | software/models/image_rejection.py:80-81 | a sample inside the window [scale, scale + range] gets a code in 0..31 |
| ImageRejection.QuantizeEnds | software/models/image_rejection.py:80-81 | the bottom of the window is code 0 and the top is code 31 |
| ImageRejection.QuantizeMonotone | software/models/image_rejection.py:80-81 | for a positive range, a larger sample never gets a smaller code, inside the window or not |
| ImageRejection.MinFrom | software/models/image_rejection.py:88 | min() returns an element that no other element is below |
| ImageRejection.MaxFrom | software/models/image_rejection.py:88 | max() returns an element that no other element is above |
| ImageRejection.StridedAt | software/models/image_rejection.py:88 | the k-th sample sig[::stride] keeps is sig[k * stride] |
| ImageRejection.StridedCovers | software/models/image_rejection.py:88 | the kept samples times the stride cover the signal |
| ImageRejection.StridedEntries | software/models/image_rejection.py:88 | sig[::stride] keeps ceil(len / stride) samples, the k-th being sig[k * stride] |
| ImageRejection.Linspace | software/models/image_rejection.py:91 | linspace returns num points |
| ImageRejection.SampleCodes | software/models/image_rejection.py:88 | the resampled codes are ceil(len / stride) quantized samples sig[k * stride], each coded against the signal's own min and max, each in 0..31 |
| ImageRejection.ZeroRangeIffConstant | software/models/image_rejection.py:88 | a non-empty signal has max - min == 0 exactly when it is constant |
| ImageRejection.AdcSamplingFails | software/models/image_rejection.py:83-92 | ADC_sampling fails exactly on a zero new rate, on a new rate above the old one (a zero slice step) and on a non-empty constant signal (a zero range) |
| ImageRejection.AdcSamplingCodes | software/models/image_rejection.py:88-91 | a non-constant signal gives min(window, ceil(len / stride)) codes in 0..31, the k-th the code of sig[k * stride] |
| ImageRejection.AdcSamplingEmpty | software/models/image_rejection.py:88-91 | an empty signal gives no times and no codes |
| ImageRejection.AdcSamplingTimes | software/models/image_rejection.py:89-91 | the time axis is as long as the codes, starts at 0 and rises strictly within [0, t_interval] |
| ImageRejection.QuantizeScaled | software/models/image_rejection.py:80-81 | scaling a sample and both ends of its window by one positive gain and one offset leaves its code unchanged |
| ImageRejection.MinAffine | software/models/image_rejection.py:88 | under a gain k > 0 and an offset c, min(k x + c) is k min(x) + c |
| ImageRejection.MaxAffine | software/models/image_rejection.py:88 | under a gain k > 0 and an offset c, max(k x + c) is k max(x) + c |
| ImageRejection.RangeAffine | software/models/image_rejection.py:88 | the full-scale range max - min of k x + c is k times that of x, so it is zero exactly when that of x is |
| ImageRejection.StridedAffine | software/models/image_rejection.py:88 | taking sig[::stride] commutes with applying a gain and an offset to every sample |
| ImageRejection.CodesAffine | software/models/image_rejection.py:88 | coding scaled samples against a window whose ends are scaled alike gives the same list of codes |
| ImageRejection.SampleCodesAffine | software/models/image_rejection.py:88 | a non-constant signal under a gain k > 0 and an offset stays non-constant and gets exactly the same resampled codes |
| ImageRejection.AdcSamplingAffine | software/models/image_rejection.py:83-92 | ADC_sampling of k x + c with k > 0 gives the same result as ADC_sampling of x: the same error, or the same time axis and the same codes |
| ImageRejection.LinspacePoint | software/models/image_rejection.py:91 | point k of linspace(0, stop, num) lies in [0, stop] and above point k - 1 |
| ImageRejection.LinspaceAxis | software/models/image_rejection.py:91 | linspace(0, stop, num) starts at 0, rises strictly and stays in [0, stop] |
| ImageRejection.Recentre | software/models/image_rejection.py:117-120 | recentring keeps one value per code |
| ImageRejection.HilbertFactor | software/models/image_rejection.py:30 | definition: 2 sin(i pi / 2), exactly 0, 2, 0, -2 with period four |
| ImageRejection.Zeros | software/models/image_rejection.py:57-100 | definition: the list of n zeros both filters pad the signal with (lines 57 and 100) |
| ImageRejection.At | software/models/image_rejection.py:57-58 | definition: the padded list read at a signal time, zero outside the signal |
| ImageRejection.ConvUpTo | software/models/image_rejection.py:62-63 | definition: the first n multiply-accumulate terms taps[j] * elements[i + N - j - 1] |
| ImageRejection.Conv | software/models/image_rejection.py:62-63 | definition: the full multiply-accumulate of one output |
| ImageRejection.FirSpec | software/models/image_rejection.py:55-65 | definition: one convolution output per input with the first N dropped, the reference for `Fir` |
| ImageRejection.HilbertSpec | software/models/image_rejection.py:98-108 | definition: one convolution output per input, delayed one sample by the N-zero padding, the reference for `HilbertTransform` |
| ImageRejection.Quantize | software/models/image_rejection.py:80-81 | definition: int((s - scale) / range * 31) with truncation toward zero; its properties are the three Quantize lemmas |
| ImageRejection.SeqMin | software/models/image_rejection.py:88 | definition: min(sig) |
| ImageRejection.SeqMax | software/models/image_rejection.py:88 | definition: max(sig) |
| ImageRejection.Strided | software/models/image_rejection.py:88 | definition: sig[::stride], the first sample and then every stride-th one |
| ImageRejection.WindowSamples | software/models/image_rejection.py:89 | definition: int(F_sample * t_interval) |
| ImageRejection.AdcSampling | software/models/image_rejection.py:83-92 | definition: the whole of ADC_sampling with its failure paths as error results; its properties are the AdcSampling lemmas |
| ImageRejection.RecentredRange | software/models/image_rejection.py:117-122 | recentred 5-bit codes lie in -15..16, inside the -32..31 of the signed 6-bit fixed-point format they are stored in |


## Left out

- The Butterworth filters are left out: `butter_lowpass`, `butter_bandpass` and their `lfilter`/`sosfilt` runs (floating-point IIR design from scipy).
- `envelope_detector` is left out: it squares, low-passes and takes a square root. So are the bandpass filters at the head of `noncoherent_demod`. `Modem.NoncoherentDecide` takes the two envelopes as inputs.
- Plotting, printing and `frequency_plot` (FFT) are not modelled in either file. Neither are the random test data and the top-level scripts. The `mix`, `RF`, `IM` and `analog_lowpass` signal generators of the front end are left out too. All of these are I/O or numerics from foreign libraries.
- `tests/baseband-basic.c` is not part of this model.
- IEEE floating point is not modelled: samples, weights and taps are exact reals. The number of window samples, `int(F_sample * t_interval)`, is evaluated exactly. So is the stride `OLD_F_sample // F_sample`, taken on natural-number rates.
- The cosine is a parameter (`cos: real -> real`) and pi is a constant. No property depends on their values.
- The Hilbert factor `2 * sin(i * pi / 2)` is the exact pattern 0, 2, 0, -2. Floating-point sin yields about 1e-16 instead of 0 at even indices, and that is not modelled.
- The `FixedPoint(c, True, 1, 11)` rounding of the taps and the `FixedPoint(s, True, 6, 0)` conversion of the codes are left out. `ImageRejection.RecentredRange` proves only that the codes fit the 6-bit range.
- Module-level state is made explicit. The Gaussian register and its weights are the object passed to `Modem.Modulate`. The coefficient list read by `fir` and `hilbert_transform` is a `taps` parameter of `ImageRejection.Fir` and `ImageRejection.HilbertTransform`. Nothing in the model calls those two methods, as nothing in the source calls `fir` or `hilbert_transform` outside commented-out lines. `ImageRejection.HilbertRejectsDc` applies their reference functions to `HilbertTaps`.
- Modem.Modulate: `data_wave` (the per-tick bit, only plotted) is not returned.
- Modem.CoherentDemod: the integral traces are returned beside the guesses instead of being plotted. The `data_wave` argument, which is never read, is dropped.
- ImageRejection.Quantize: requires a non-zero range. In the source a zero range fails: a list of floats raises ZeroDivisionError at the division, and a numpy array (as the module's own script passes) yields nan and then a ValueError from int(). `ImageRejection.AdcSampling` models either failure as the error result "zero full-scale range", without telling the two apart.
- ImageRejection.AdcSampling: sample rates are natural numbers, so negative rates are not modelled.
- Modem.CoherentDemod: requires `cycle <= |wave|`. A longer cycle makes the source raise IndexError at modem.py line 95; that failure is not modelled. The only call site, which is commented out, passes the `cycle == len(wave)` that `modulate` returns.
- Modem.NoncoherentDecide: requires `cycle` to be at most the length of both envelopes. A longer cycle makes the source raise IndexError at modem.py line 136; that failure is not modelled.
