/**
 * The image-rejection receiver front end (software/models/image_rejection.py):
 * the 29-tap Hilbert transformer, the two ways the model runs it over a
 * sample stream (`fir`, which drops its warm-up, and `hilbert_transform`,
 * which keeps one output per input), the 5-bit quantizer and the ADC
 * resampler that feeds the I and Q streams to the digital back end.
 *
 * Samples and taps are exact reals; the fixed-point rounding of the taps
 * and of the recentred codes is not modelled.
 */
module ImageRejection {

  datatype Result<T> = Ok(value: T) | Error(message: string)

  // ---------------------------------------------------------------------
  // Hilbert transformer taps
  // ---------------------------------------------------------------------

  const TapCount: nat := 29

  // The tabulated half-band prototype, in rows of five taps.
  const HalfBandRow0: seq<real> := [-0.0000, 0.0001, 0.0000, -0.0009, -0.0000]
  const HalfBandRow1: seq<real> := [0.0040, 0.0000, -0.0128, -0.0000, 0.0340]
  const HalfBandRow2: seq<real> := [0.0000, -0.0850, -0.0000, 0.3106, 0.5000]
  const HalfBandRow3: seq<real> := [0.3106, -0.0000, -0.0850, 0.0000, 0.0340]
  const HalfBandRow4: seq<real> := [-0.0000, -0.0128, 0.0000, 0.0040, -0.0000]
  const HalfBandRow5: seq<real> := [-0.0009, 0.0000, 0.0001, -0.0000]

  /** The half-band prototype, before modulation to a Hilbert filter. */
  const HalfBandTaps: seq<real> :=
    (HalfBandRow0 + HalfBandRow1 + HalfBandRow2) + (HalfBandRow3 + HalfBandRow4 + HalfBandRow5)

  /** 2 sin(i pi / 2), which takes the values 0, 2, 0, -2 with period four. */
  function HilbertFactor(i: nat): real
  {
    if i % 4 == 1 then 2.0 else if i % 4 == 3 then -2.0 else 0.0
  }

  /** Modulates a prototype filter by 2 sin(i pi / 2). */
  function Modulated(proto: seq<real>): (r: seq<real>)
    ensures |r| == |proto|
  {
    seq(|proto|, i requires 0 <= i < |proto| => HilbertFactor(i) * proto[i])
  }

  /** The Hilbert transformer: the half-band prototype, modulated. */
  const HilbertTaps: seq<real> := Modulated(HalfBandTaps)

  /** The prototype is symmetric about its centre tap. */
  lemma HalfBandSymmetric()
    ensures |HalfBandTaps| == TapCount
    ensures forall i :: 0 <= i < TapCount ==> HalfBandTaps[i] == HalfBandTaps[TapCount - 1 - i]
  {
    var b := HalfBandTaps;
    assert b[0] == b[28] && b[1] == b[27] && b[2] == b[26] && b[3] == b[25] && b[4] == b[24];
    assert b[5] == b[23] && b[6] == b[22] && b[7] == b[21] && b[8] == b[20] && b[9] == b[19];
    assert b[10] == b[18] && b[11] == b[17] && b[12] == b[16] && b[13] == b[15];
  }

  /** Mirroring an index about the centre of a 4k + 1 tap filter flips the sign of its factor. */
  lemma FactorMirror(len: nat, i: nat)
    requires len % 4 == 1 && i < len
    ensures HilbertFactor(len - 1 - i) == -HilbertFactor(i)
  {
    var j := len - 1 - i;
    assert (i + j) % 4 == 0;
  }

  /**
   * Modulating a symmetric prototype of 4k + 1 taps gives an antisymmetric
   * filter whose even taps, the centre included, are zero.
   */
  lemma ModulatedAntisymmetric(proto: seq<real>)
    requires |proto| % 4 == 1
    requires forall i :: 0 <= i < |proto| ==> proto[i] == proto[|proto| - 1 - i]
    ensures forall i :: 0 <= i < |proto| ==> Modulated(proto)[i] == -Modulated(proto)[|proto| - 1 - i]
    ensures forall i :: 0 <= i < |proto| && i % 2 == 0 ==> Modulated(proto)[i] == 0.0
  {
    var r := Modulated(proto);
    forall i | 0 <= i < |proto|
      ensures r[i] == -r[|proto| - 1 - i]
    {
      var j := |proto| - 1 - i;
      var b := proto[i];
      assert proto[j] == b;
      var f, g := HilbertFactor(i), HilbertFactor(j);
      FactorMirror(|proto|, i);
      assert g * b == -(f * b);
    }
  }

  /** The Hilbert taps are antisymmetric about the centre, and every even tap is zero. */
  lemma HilbertTapsAntisymmetric()
    ensures |HilbertTaps| == TapCount
    ensures forall i :: 0 <= i < TapCount ==> HilbertTaps[i] == -HilbertTaps[TapCount - 1 - i]
    ensures forall i :: 0 <= i < TapCount && i % 2 == 0 ==> HilbertTaps[i] == 0.0
  {
    HalfBandSymmetric();
    ModulatedAntisymmetric(HalfBandTaps);
  }

  // ---------------------------------------------------------------------
  // Convolution, the reference for both filter loops
  // ---------------------------------------------------------------------

  /** The input sample at time t, zero before the stream starts and after it ends. */
  function At(x: seq<real>, t: int): real
  {
    if 0 <= t < |x| then x[t] else 0.0
  }

  /** The first n terms of the convolution sum h[j] x[m - j]. */
  function ConvUpTo(h: seq<real>, x: seq<real>, m: int, n: nat): real
    requires n <= |h|
  {
    if n == 0 then 0.0 else ConvUpTo(h, x, m, n - 1) + h[n - 1] * At(x, m - (n - 1))
  }

  /** Output m of the causal convolution of x with the taps h. */
  function Conv(h: seq<real>, x: seq<real>, m: int): real
  {
    ConvUpTo(h, x, m, |h|)
  }

  /** `fir`: the convolution with its first |h| outputs (the warm-up) dropped. */
  function FirSpec(h: seq<real>, x: seq<real>): seq<real>
  {
    seq(if |x| <= |h| then 0 else |x| - |h|, k requires 0 <= k => Conv(h, x, k + |h|))
  }

  /** `hilbert_transform`: the convolution delayed by one sample, one output per input. */
  function HilbertSpec(h: seq<real>, x: seq<real>): seq<real>
  {
    seq(|x|, i requires 0 <= i => Conv(h, x, i - 1))
  }

  function Zeros(n: nat): seq<real>
  {
    seq(n, _ => 0.0)
  }

  // ---------------------------------------------------------------------
  // The two filter loops
  // ---------------------------------------------------------------------

  /**
   * `fir`: pads the signal with |taps| - 1 zeros, forms one multiply-accumulate
   * per input sample and drops the first |taps| results. The module-level
   * coefficient list image_rejection.py reads is the parameter `taps`;
   * `HilbertRejectsDc` applies `FirSpec` and `HilbertSpec` to `HilbertTaps`.
   */
  method Fir(taps: seq<real>, signal: seq<real>) returns (r: seq<real>)
    requires |taps| > 0
    ensures |r| == if |signal| <= |taps| then 0 else |signal| - |taps|
    ensures r == FirSpec(taps, signal)
  {
    var n := |taps|;
    var elements := Zeros(n - 1) + signal;
    var result: seq<real> := [];
    var i := 0;
    while i < |signal|
      invariant 0 <= i <= |signal|
      invariant |result| == i
      invariant forall k :: 0 <= k < i ==> result[k] == Conv(taps, signal, k)
    {
      var e := 0.0;
      var j := 0;
      while j < n
        invariant 0 <= j <= n
        invariant e == ConvUpTo(taps, signal, i, j)
      {
        assert elements[i + n - j - 1] == At(signal, i - j);
        e := e + taps[j] * elements[i + n - j - 1];
        j := j + 1;
      }
      result := result + [e];
      i := i + 1;
    }
    r := if |result| <= n then [] else result[n..];
  }

  /**
   * `hilbert_transform`: pads the signal with |taps| zeros and forms one
   * multiply-accumulate per input sample, keeping every result. As for
   * `Fir`, the coefficient list is the parameter `taps`.
   */
  method HilbertTransform(taps: seq<real>, q: seq<real>) returns (r: seq<real>)
    ensures |r| == |q|
    ensures r == HilbertSpec(taps, q)
  {
    var n := |taps|;
    var elements := Zeros(n) + q;
    var result: seq<real> := [];
    var i := 0;
    while i < |q|
      invariant 0 <= i <= |q|
      invariant |result| == i
      invariant forall k :: 0 <= k < i ==> result[k] == Conv(taps, q, k - 1)
    {
      var e := 0.0;
      var j := 0;
      while j < n
        invariant 0 <= j <= n
        invariant e == ConvUpTo(taps, q, i - 1, j)
      {
        assert elements[i + n - j - 1] == At(q, i - 1 - j);
        e := e + taps[j] * elements[i + n - j - 1];
        j := j + 1;
      }
      result := result + [e];
      i := i + 1;
    }
    r := result;
  }

  // ---------------------------------------------------------------------
  // Properties of the filters
  // ---------------------------------------------------------------------

  /** `fir` output k is `hilbert_transform` output k + |h| + 1 of the same signal. */
  lemma FirIsDelayedHilbert(h: seq<real>, x: seq<real>, k: nat)
    requires k + |h| + 1 < |x|
    ensures k < |FirSpec(h, x)|
    ensures FirSpec(h, x)[k] == HilbertSpec(h, x)[k + |h| + 1]
  {
    assert HilbertSpec(h, x)[k + |h| + 1] == Conv(h, x, k + |h|);
  }

  /** The first `hilbert_transform` output is zero: only padding is in the window. */
  lemma {:induction false} HilbertStartsAtZero(h: seq<real>, x: seq<real>)
    requires |x| > 0
    ensures HilbertSpec(h, x)[0] == 0.0
  {
    ConvBeforeStart(h, x, -1, |h|);
  }

  lemma {:induction false} ConvBeforeStart(h: seq<real>, x: seq<real>, m: int, n: nat)
    requires n <= |h| && m < 0
    ensures ConvUpTo(h, x, m, n) == 0.0
  {
    if n > 0 {
      ConvBeforeStart(h, x, m, n - 1);
    }
  }

  /** Pointwise a x + b y. */
  function Combine(a: real, x: seq<real>, b: real, y: seq<real>): (z: seq<real>)
    requires |x| == |y|
    ensures |z| == |x|
  {
    seq(|x|, i requires 0 <= i < |x| => a * x[i] + b * y[i])
  }

  lemma {:induction false} ConvUpToLinear(h: seq<real>, a: real, x: seq<real>, b: real, y: seq<real>, m: int, n: nat)
    requires |x| == |y| && n <= |h|
    ensures ConvUpTo(h, Combine(a, x, b, y), m, n) == a * ConvUpTo(h, x, m, n) + b * ConvUpTo(h, y, m, n)
  {
    if n > 0 {
      ConvUpToLinear(h, a, x, b, y, m, n - 1);
      var t := m - (n - 1);
      assert At(Combine(a, x, b, y), t) == a * At(x, t) + b * At(y, t);
    }
  }

  /** Both filters are linear in their input signal. */
  lemma FiltersLinear(h: seq<real>, a: real, x: seq<real>, b: real, y: seq<real>)
    requires |x| == |y|
    ensures FirSpec(h, Combine(a, x, b, y)) == Combine(a, FirSpec(h, x), b, FirSpec(h, y))
    ensures HilbertSpec(h, Combine(a, x, b, y)) == Combine(a, HilbertSpec(h, x), b, HilbertSpec(h, y))
  {
    var z := Combine(a, x, b, y);
    var f, fx, fy := FirSpec(h, z), FirSpec(h, x), FirSpec(h, y);
    forall k | 0 <= k < |f|
      ensures f[k] == Combine(a, fx, b, fy)[k]
    {
      ConvUpToLinear(h, a, x, b, y, k + |h|, |h|);
      assert f[k] == Conv(h, z, k + |h|);
      assert fx[k] == Conv(h, x, k + |h|);
    }
    var g, gx, gy := HilbertSpec(h, z), HilbertSpec(h, x), HilbertSpec(h, y);
    forall i | 0 <= i < |g|
      ensures g[i] == Combine(a, gx, b, gy)[i]
    {
      ConvUpToLinear(h, a, x, b, y, i - 1, |h|);
    }
  }

  lemma {:induction false} ConvUpToOfZeros(h: seq<real>, len: nat, m: int, n: nat)
    requires n <= |h|
    ensures ConvUpTo(h, Zeros(len), m, n) == 0.0
  {
    if n > 0 {
      ConvUpToOfZeros(h, len, m, n - 1);
    }
  }

  /** A silent input gives a silent output. */
  lemma FiltersOfZeros(h: seq<real>, len: nat)
    ensures FirSpec(h, Zeros(len)) == Zeros(if len <= |h| then 0 else len - |h|)
    ensures HilbertSpec(h, Zeros(len)) == Zeros(len)
  {
    var f := FirSpec(h, Zeros(len));
    forall k | 0 <= k < |f|
      ensures f[k] == 0.0
    {
      ConvUpToOfZeros(h, len, k + |h|, |h|);
      assert f[k] == Conv(h, Zeros(len), k + |h|);
    }
    var g := HilbertSpec(h, Zeros(len));
    forall i | 0 <= i < |g|
      ensures g[i] == 0.0
    {
      ConvUpToOfZeros(h, len, i - 1, |h|);
    }
  }

  function Sum(h: seq<real>): real
  {
    if |h| == 0 then 0.0 else Sum(h[..|h| - 1]) + h[|h| - 1]
  }

  /** Extends a slice sum by one element on the right. */
  lemma SumSnoc(h: seq<real>, lo: nat, hi: nat)
    requires lo < hi <= |h|
    ensures Sum(h[lo..hi]) == Sum(h[lo..hi - 1]) + h[hi - 1]
  {
    var s := h[lo..hi];
    assert s[..|s| - 1] == h[lo..hi - 1];
  }

  lemma {:induction false} SumSplit(h: seq<real>, lo: nat, mid: nat, hi: nat)
    requires lo <= mid <= hi <= |h|
    ensures Sum(h[lo..hi]) == Sum(h[lo..mid]) + Sum(h[mid..hi])
    decreases hi - mid
  {
    if hi == mid {
      assert h[mid..hi] == [];
    } else {
      SumSplit(h, lo, mid, hi - 1);
      SumSnoc(h, lo, hi);
      SumSnoc(h, mid, hi);
    }
  }

  lemma {:induction false} ConvUpToOfConstant(h: seq<real>, x: seq<real>, c: real, m: int, n: nat)
    requires n <= |h|
    requires forall t :: 0 <= t < |x| ==> x[t] == c
    requires n - 1 <= m < |x|
    ensures ConvUpTo(h, x, m, n) == c * Sum(h[0..n])
  {
    if n > 0 {
      ConvUpToOfConstant(h, x, c, m, n - 1);
      SumSnoc(h, 0, n);
    } else {
      assert h[0..n] == [];
    }
  }

  /** Pairs mirrored taps from the outside in. */
  function MirrorSum(h: seq<real>, k: nat): real
    requires 2 * k <= |h|
  {
    if k == 0 then 0.0 else MirrorSum(h, k - 1) + h[k - 1] + h[|h| - k]
  }

  /** The mirror sum adds up the first k and the last k taps. */
  lemma {:induction false} MirrorSumIsOuterSum(h: seq<real>, k: nat)
    requires 2 * k <= |h|
    ensures MirrorSum(h, k) == Sum(h[0..k]) + Sum(h[|h| - k..|h|])
  {
    var n := |h|;
    if k == 0 {
      assert h[0..0] == [] && h[n..n] == [];
    } else {
      MirrorSumIsOuterSum(h, k - 1);
      SumSnoc(h, 0, k);
      SumSplit(h, n - k, n - k + 1, n);
      SumSnoc(h, n - k, n - k + 1);
      assert h[n - k..n - k] == [];
    }
  }

  lemma {:induction false} MirrorSumOfAntisymmetric(h: seq<real>, k: nat)
    requires 2 * k <= |h|
    requires forall i :: 0 <= i < |h| ==> h[i] == -h[|h| - 1 - i]
    ensures MirrorSum(h, k) == 0.0
  {
    if k > 0 {
      MirrorSumOfAntisymmetric(h, k - 1);
      assert h[k - 1] == -h[|h| - 1 - (k - 1)];
    }
  }

  /** An antisymmetric filter has zero gain at DC. */
  lemma {:induction false} AntisymmetricSumsToZero(h: seq<real>)
    requires forall i :: 0 <= i < |h| ==> h[i] == -h[|h| - 1 - i]
    ensures Sum(h[0..|h|]) == 0.0
  {
    var n, k := |h|, |h| / 2;
    MirrorSumOfAntisymmetric(h, k);
    MirrorSumIsOuterSum(h, k);
    SumSplit(h, 0, k, n);
    if n % 2 == 1 {
      assert h[k] == -h[n - 1 - k];
      SumSplit(h, k, k + 1, n);
      SumSnoc(h, k, k + 1);
      assert h[k..k] == [];
    }
  }

  /**
   * The Hilbert transformer rejects DC: once the window has filled, a
   * constant input produces zero output from both filters.
   */
  lemma HilbertRejectsDc(x: seq<real>, c: real)
    requires forall t :: 0 <= t < |x| ==> x[t] == c
    ensures forall k :: 0 <= k < |FirSpec(HilbertTaps, x)| ==> FirSpec(HilbertTaps, x)[k] == 0.0
    ensures forall i :: TapCount <= i < |x| ==> HilbertSpec(HilbertTaps, x)[i] == 0.0
  {
    HilbertTapsAntisymmetric();
    AntisymmetricSumsToZero(HilbertTaps);
    forall k | 0 <= k < |FirSpec(HilbertTaps, x)|
      ensures FirSpec(HilbertTaps, x)[k] == 0.0
    {
      ConvUpToOfConstant(HilbertTaps, x, c, k + TapCount, TapCount);
      assert FirSpec(HilbertTaps, x)[k] == Conv(HilbertTaps, x, k + TapCount);
    }
    forall i | TapCount <= i < |x|
      ensures HilbertSpec(HilbertTaps, x)[i] == 0.0
    {
      ConvUpToOfConstant(HilbertTaps, x, c, i - 1, TapCount);
      assert HilbertSpec(HilbertTaps, x)[i] == Conv(HilbertTaps, x, i - 1);
    }
  }

  // ---------------------------------------------------------------------
  // Quantizer
  // ---------------------------------------------------------------------

  /** Python's int() on a float: rounds toward zero. */
  function Trunc(r: real): (n: int)
    ensures r >= 0.0 ==> n as real <= r < n as real + 1.0
    ensures r < 0.0 ==> n as real - 1.0 < r <= n as real
  {
    if r >= 0.0 then r.Floor else -((-r).Floor)
  }

  /** Truncation toward zero never reverses the order of two values. */
  lemma TruncMonotone(r: real, s: real)
    requires r <= s
    ensures Trunc(r) <= Trunc(s)
  {
    if r < 0.0 && 0.0 <= s {
      assert Trunc(r) <= 0 <= Trunc(s);
    }
  }

  /** The 5-bit ADC code of s, for a full-scale window [scale, scale + range]. */
  function Quantize(s: real, scale: real, range: real): int
    requires range != 0.0
  {
    Trunc((s - scale) / range * 31.0)
  }

  /** Inside the window the code is in 0..31. */
  lemma QuantizeBounds(s: real, scale: real, range: real)
    requires range > 0.0 && scale <= s <= scale + range
    ensures 0 <= Quantize(s, scale, range) <= 31
  {
    var u := (s - scale) / range;
    assert 0.0 <= u <= 1.0 by {
      assert u * range == s - scale;
    }
  }

  /** The bottom of the window is code 0 and the top is code 31. */
  lemma QuantizeEnds(scale: real, range: real)
    requires range > 0.0
    ensures Quantize(scale, scale, range) == 0
    ensures Quantize(scale + range, scale, range) == 31
  {
    assert (scale + range - scale) / range == 1.0;
  }

  /** A larger sample never gets a smaller code. */
  lemma QuantizeMonotone(s: real, t: real, scale: real, range: real)
    requires range > 0.0 && s <= t
    ensures Quantize(s, scale, range) <= Quantize(t, scale, range)
  {
    var u := (s - scale) / range;
    var v := (t - scale) / range;
    assert u <= v by {
      assert v - u == (t - s) / range;
    }
    TruncMonotone(u * 31.0, v * 31.0);
  }

  // ---------------------------------------------------------------------
  // ADC resampling
  // ---------------------------------------------------------------------

  /** The observation window, in seconds. */
  const TInterval: real := 0.00001

  /** The smallest of s[from..]. */
  function MinFrom(s: seq<real>, from: nat): (m: real)
    requires from < |s|
    ensures exists i :: from <= i < |s| && s[i] == m
    ensures forall i :: from <= i < |s| ==> m <= s[i]
    decreases |s| - from
  {
    if from == |s| - 1 then s[from]
    else
      var rest := MinFrom(s, from + 1);
      if s[from] <= rest then s[from] else rest
  }

  /** The largest of s[from..]. */
  function MaxFrom(s: seq<real>, from: nat): (m: real)
    requires from < |s|
    ensures exists i :: from <= i < |s| && s[i] == m
    ensures forall i :: from <= i < |s| ==> s[i] <= m
    decreases |s| - from
  {
    if from == |s| - 1 then s[from]
    else
      var rest := MaxFrom(s, from + 1);
      if s[from] >= rest then s[from] else rest
  }

  /** Python's min() of a non-empty sequence. */
  function SeqMin(s: seq<real>): real
    requires |s| > 0
  {
    MinFrom(s, 0)
  }

  /** Python's max() of a non-empty sequence. */
  function SeqMax(s: seq<real>): real
    requires |s| > 0
  {
    MaxFrom(s, 0)
  }

  /** sig[::stride]: every stride-th sample, starting with the first. */
  function Strided(sig: seq<real>, stride: nat): seq<real>
    requires stride > 0
    decreases |sig|
  {
    if |sig| == 0 then []
    else if |sig| <= stride then [sig[0]]
    else [sig[0]] + Strided(sig[stride..], stride)
  }

  lemma StrideAtLeastOne(oldFSample: nat, fSample: nat)
    requires 0 < fSample <= oldFSample
    ensures oldFSample / fSample >= 1
  {
  }

  lemma StrideZero(oldFSample: nat, fSample: nat)
    requires oldFSample < fSample
    ensures oldFSample / fSample == 0
  {
  }

  lemma MulSucc(k: int, d: int)
    ensures (k + 1) * d == k * d + d
  {
  }

  /** The k-th sample sig[::stride] keeps is sig[k * stride]. */
  lemma {:induction false} StridedAt(sig: seq<real>, stride: nat, k: nat)
    requires stride > 0 && k < |Strided(sig, stride)|
    ensures k * stride < |sig| && Strided(sig, stride)[k] == sig[k * stride]
    decreases k
  {
    if k > 0 {
      var rest := sig[stride..];
      StridedAt(rest, stride, k - 1);
      var m := (k - 1) * stride;
      MulSucc(k - 1, stride);
      assert Strided(sig, stride)[k] == Strided(rest, stride)[k - 1] == rest[m] == sig[m + stride];
    }
  }

  /** The samples sig[::stride] keeps, times the stride, cover the whole signal. */
  lemma {:induction false} StridedCovers(sig: seq<real>, stride: nat)
    requires stride > 0
    ensures |sig| <= |Strided(sig, stride)| * stride
    decreases |sig|
  {
    if |sig| > stride {
      var rest := sig[stride..];
      StridedCovers(rest, stride);
      MulSucc(|Strided(rest, stride)|, stride);
    }
  }

  /**
   * sig[::stride] keeps ceil(|sig| / stride) samples, the k-th being
   * sig[k * stride]: every kept index is in range, and the kept samples
   * times the stride cover the whole signal.
   */
  lemma StridedEntries(sig: seq<real>, stride: nat)
    requires stride > 0
    ensures |sig| <= |Strided(sig, stride)| * stride
    ensures forall k :: 0 <= k < |Strided(sig, stride)| ==>
      k * stride < |sig| && Strided(sig, stride)[k] == sig[k * stride]
  {
    StridedCovers(sig, stride);
    forall k | 0 <= k < |Strided(sig, stride)|
      ensures k * stride < |sig| && Strided(sig, stride)[k] == sig[k * stride]
    {
      StridedAt(sig, stride, k);
    }
  }

  /** numpy.linspace(start, stop, num): num evenly spaced points, both ends included. */
  function Linspace(start: real, stop: real, num: nat): (r: seq<real>)
    ensures |r| == num
  {
    if num == 0 then []
    else if num == 1 then [start]
    else seq(num, k requires 0 <= k < num => start + k as real * ((stop - start) / (num - 1) as real))
  }

  /** The number of samples the new rate fits into the observation window. */
  function WindowSamples(fSample: nat): nat
  {
    Trunc(fSample as real * TInterval)
  }

  /** Every sample equals the first: the signal has no full-scale range. */
  predicate IsConstant(sig: seq<real>)
  {
    forall i :: 0 <= i < |sig| ==> sig[i] == sig[0]
  }

  /**
   * `[quantize(s, min(sig), max(sig) - min(sig)) for s in sig[::stride]]`:
   * ceil(|sig| / stride) codes, the k-th the code of sig[k * stride], each in 0..31.
   * Index k * stride is in range for every code, and the codes times the
   * stride cover the signal, which together pin the count to the ceiling.
   */
  function SampleCodes(sig: seq<real>, stride: nat): (codes: seq<int>)
    requires stride > 0 && |sig| > 0 && SeqMax(sig) - SeqMin(sig) != 0.0
    ensures |sig| <= |codes| * stride
    ensures forall k :: 0 <= k < |codes| ==>
      && k * stride < |sig|
      && codes[k] == Quantize(sig[k * stride], SeqMin(sig), SeqMax(sig) - SeqMin(sig))
      && 0 <= codes[k] <= 31
  {
    var kept := Strided(sig, stride);
    StridedEntries(sig, stride);
    var lo, hi := SeqMin(sig), SeqMax(sig);
    var codes := seq(|kept|, k requires 0 <= k < |kept| => Quantize(kept[k], lo, hi - lo));
    assert forall k :: 0 <= k < |codes| ==> 0 <= codes[k] <= 31 by {
      forall k | 0 <= k < |codes|
        ensures 0 <= codes[k] <= 31
      {
        var x := kept[k];
        assert lo <= x <= hi;
        QuantizeBounds(x, lo, hi - lo);
      }
    }
    codes
  }

  /** The code of each kept sample against the window starting at lo, range wide. */
  function Codes(kept: seq<real>, lo: real, range: real): seq<int>
    requires range != 0.0
  {
    seq(|kept|, k requires 0 <= k < |kept| => Quantize(kept[k], lo, range))
  }

  /**
   * `ADC_sampling`: keeps every (old rate // new rate)-th sample, quantizes
   * it against the whole signal's minimum and maximum, and truncates codes
   * and time axis to the observation window. It fails on a zero new rate,
   * on a stride of zero (a new rate above the old one) and on a non-empty
   * signal with a zero full-scale range.
   */
  function AdcSampling(sig: seq<real>, fSample: nat, oldFSample: nat): Result<(seq<real>, seq<int>)>
  {
    if fSample == 0 then Error("integer division or modulo by zero")
    else if oldFSample / fSample == 0 then Error("slice step cannot be zero")
    else
      if |sig| == 0 then
        Ok(([], []))
      else if SeqMax(sig) - SeqMin(sig) == 0.0 then Error("zero full-scale range")
      else
        var codes := SampleCodes(sig, oldFSample / fSample);
        var numSamples := WindowSamples(fSample);
        var count := if numSamples < |codes| then numSamples else |codes|;
        Ok((Linspace(0.0, TInterval, numSamples)[..count], codes[..count]))
  }

  /** A non-empty signal has a zero range exactly when it is constant. */
  lemma ZeroRangeIffConstant(sig: seq<real>)
    requires |sig| > 0
    ensures SeqMax(sig) - SeqMin(sig) == 0.0 <==> IsConstant(sig)
  {
    var lo, hi := SeqMin(sig), SeqMax(sig);
    if hi - lo == 0.0 {
      forall i | 0 <= i < |sig|
        ensures sig[i] == sig[0]
      {
        assert lo <= sig[i] <= hi && lo <= sig[0] <= hi;
      }
    } else {
      var a :| 0 <= a < |sig| && sig[a] == lo;
      var b :| 0 <= b < |sig| && sig[b] == hi;
      assert sig[a] != sig[b];
    }
  }

  /**
   * ADC_sampling fails exactly when the new rate is zero, when it exceeds
   * the old rate (a zero stride), or when the signal is a non-empty constant.
   */
  lemma AdcSamplingFails(sig: seq<real>, fSample: nat, oldFSample: nat)
    ensures AdcSampling(sig, fSample, oldFSample).Error? <==>
      fSample == 0 || oldFSample < fSample || (|sig| > 0 && IsConstant(sig))
  {
    if fSample > 0 && oldFSample < fSample {
      StrideZero(oldFSample, fSample);
    } else if fSample > 0 {
      StrideAtLeastOne(oldFSample, fSample);
      if |sig| > 0 {
        ZeroRangeIffConstant(sig);
      }
    }
  }

  /**
   * For a non-constant signal and a stride of at least one, ADC_sampling
   * succeeds and returns min(window, ceil(|sig| / stride)) codes: no more
   * than the window holds, and either the window is full or the codes
   * cover the whole signal. The k-th code is the 5-bit code of
   * sig[k * stride] against the signal's full range, in 0..31.
   */
  lemma AdcSamplingCodes(sig: seq<real>, fSample: nat, oldFSample: nat)
    requires 0 < fSample <= oldFSample
    requires |sig| > 0 && SeqMax(sig) - SeqMin(sig) != 0.0
    ensures AdcSampling(sig, fSample, oldFSample).Ok?
    ensures var stride, codes := oldFSample / fSample, AdcSampling(sig, fSample, oldFSample).value.1;
      && |codes| <= WindowSamples(fSample)
      && (|codes| == WindowSamples(fSample) || |sig| <= |codes| * stride)
      && forall k :: 0 <= k < |codes| ==>
           && k * stride < |sig|
           && codes[k] == Quantize(sig[k * stride], SeqMin(sig), SeqMax(sig) - SeqMin(sig))
           && 0 <= codes[k] <= 31
  {
    StrideAtLeastOne(oldFSample, fSample);
    var stride := oldFSample / fSample;
    var codes := AdcSampling(sig, fSample, oldFSample).value.1;
    var all := SampleCodes(sig, stride);
    assert codes == all[..Min(WindowSamples(fSample), |all|)];
  }

  /** An empty signal is resampled to no codes and no times. */
  lemma AdcSamplingEmpty(fSample: nat, oldFSample: nat)
    requires 0 < fSample <= oldFSample
    ensures AdcSampling([], fSample, oldFSample) == Ok(([], []))
  {
    StrideAtLeastOne(oldFSample, fSample);
  }

  /**
   * A successful ADC_sampling returns a time axis as long as its codes that
   * starts at 0 and rises strictly within the observation window.
   */
  lemma AdcSamplingTimes(sig: seq<real>, fSample: nat, oldFSample: nat)
    requires AdcSampling(sig, fSample, oldFSample).Ok?
    ensures var (times, codes) := AdcSampling(sig, fSample, oldFSample).value;
      && |times| == |codes|
      && (|times| > 0 ==> times[0] == 0.0)
      && (forall k :: 0 <= k < |times| ==> 0.0 <= times[k] <= TInterval)
      && (forall k :: 0 < k < |times| ==> times[k - 1] < times[k])
  {
    LinspaceAxis(TInterval, WindowSamples(fSample));
  }

  // Gain and offset invariance: the quantizer's full-scale window is taken
  // from the signal itself, so a positive gain and any offset applied to
  // the whole signal leave the codes unchanged.

  /** One sample under a gain k and an offset c. */
  function Rescale(x: real, k: real, c: real): real
  {
    k * x + c
  }

  /** The signal k x + c, sample by sample: a gain k and an offset c. */
  function Affine(sig: seq<real>, k: real, c: real): (r: seq<real>)
    ensures |r| == |sig|
  {
    seq(|sig|, i requires 0 <= i < |sig| => Rescale(sig[i], k, c))
  }

  /** A positive gain keeps the order of two samples. */
  lemma ScaleOrder(a: real, b: real, k: real, c: real)
    requires k > 0.0
    ensures a <= b <==> Rescale(a, k, c) <= Rescale(b, k, c)
  {
    if a <= b {
      assert k * a <= k * b;
    } else {
      assert k * b < k * a;
    }
  }

  /** A sample of s[from..] that no other sample is below is the minimum. */
  lemma MinFromUnique(s: seq<real>, from: nat, i: nat)
    requires from <= i < |s|
    requires forall j :: from <= j < |s| ==> s[i] <= s[j]
    ensures MinFrom(s, from) == s[i]
  {
    var w :| from <= w < |s| && s[w] == MinFrom(s, from);
    assert s[i] <= s[w];
  }

  /** A sample of s[from..] that no other sample is above is the maximum. */
  lemma MaxFromUnique(s: seq<real>, from: nat, i: nat)
    requires from <= i < |s|
    requires forall j :: from <= j < |s| ==> s[j] <= s[i]
    ensures MaxFrom(s, from) == s[i]
  {
    var w :| from <= w < |s| && s[w] == MaxFrom(s, from);
    assert s[w] <= s[i];
  }

  /** An index where the minimum sits. */
  lemma LowestIndex(s: seq<real>) returns (p: nat)
    requires |s| > 0
    ensures p < |s| && s[p] == SeqMin(s)
    ensures forall j :: 0 <= j < |s| ==> s[p] <= s[j]
  {
    p :| 0 <= p < |s| && s[p] == MinFrom(s, 0);
  }

  /** An index where the maximum sits. */
  lemma HighestIndex(s: seq<real>) returns (q: nat)
    requires |s| > 0
    ensures q < |s| && s[q] == SeqMax(s)
    ensures forall j :: 0 <= j < |s| ==> s[j] <= s[q]
  {
    q :| 0 <= q < |s| && s[q] == MaxFrom(s, 0);
  }

  /** When a positive gain maps s onto a, the sample lowest in s is the minimum of a. */
  lemma LowestMapsToMin(s: seq<real>, a: seq<real>, k: real, c: real, p: nat)
    requires k > 0.0 && p < |s| && |a| == |s|
    requires forall i :: 0 <= i < |s| ==> a[i] == Rescale(s[i], k, c)
    requires forall j :: 0 <= j < |s| ==> s[p] <= s[j]
    ensures SeqMin(a) == a[p]
  {
    forall j | 0 <= j < |s|
      ensures a[p] <= a[j]
    {
      ScaleOrder(s[p], s[j], k, c);
    }
    MinFromUnique(a, 0, p);
  }

  /** When a positive gain maps s onto a, the sample highest in s is the maximum of a. */
  lemma HighestMapsToMax(s: seq<real>, a: seq<real>, k: real, c: real, q: nat)
    requires k > 0.0 && q < |s| && |a| == |s|
    requires forall i :: 0 <= i < |s| ==> a[i] == Rescale(s[i], k, c)
    requires forall j :: 0 <= j < |s| ==> s[j] <= s[q]
    ensures SeqMax(a) == a[q]
  {
    forall j | 0 <= j < |s|
      ensures a[j] <= a[q]
    {
      ScaleOrder(s[j], s[q], k, c);
    }
    MaxFromUnique(a, 0, q);
  }

  /** A signal that is s under a positive gain and an offset has s's scaled minimum. */
  lemma MinOfImage(s: seq<real>, a: seq<real>, k: real, c: real)
    requires k > 0.0 && |s| > 0 && |a| == |s|
    requires forall i :: 0 <= i < |s| ==> a[i] == Rescale(s[i], k, c)
    ensures SeqMin(a) == Rescale(SeqMin(s), k, c)
  {
    var p := LowestIndex(s);
    LowestMapsToMin(s, a, k, c, p);
  }

  /** A signal that is s under a positive gain and an offset has s's scaled maximum. */
  lemma MaxOfImage(s: seq<real>, a: seq<real>, k: real, c: real)
    requires k > 0.0 && |s| > 0 && |a| == |s|
    requires forall i :: 0 <= i < |s| ==> a[i] == Rescale(s[i], k, c)
    ensures SeqMax(a) == Rescale(SeqMax(s), k, c)
  {
    var q := HighestIndex(s);
    HighestMapsToMax(s, a, k, c, q);
  }

  /** The minimum of the scaled signal is the scaled minimum. */
  lemma MinAffine(s: seq<real>, k: real, c: real)
    requires k > 0.0 && |s| > 0
    ensures SeqMin(Affine(s, k, c)) == Rescale(SeqMin(s), k, c)
  {
    MinOfImage(s, Affine(s, k, c), k, c);
  }

  /** The maximum of the scaled signal is the scaled maximum. */
  lemma MaxAffine(s: seq<real>, k: real, c: real)
    requires k > 0.0 && |s| > 0
    ensures SeqMax(Affine(s, k, c)) == Rescale(SeqMax(s), k, c)
  {
    MaxOfImage(s, Affine(s, k, c), k, c);
  }

  /** Scaling a signal with a sample in front scales that sample and the rest. */
  lemma AffineCons(x: real, t: seq<real>, k: real, c: real)
    ensures Affine([x] + t, k, c) == [Rescale(x, k, c)] + Affine(t, k, c)
  {
    var l, r := Affine([x] + t, k, c), [Rescale(x, k, c)] + Affine(t, k, c);
    forall j | 0 <= j < |l|
      ensures l[j] == r[j]
    {
      if j > 0 {
        assert ([x] + t)[j] == t[j - 1];
      }
    }
  }

  /** Taking every stride-th sample commutes with scaling the samples. */
  lemma {:induction false} StridedAffine(sig: seq<real>, stride: nat, k: real, c: real)
    requires stride > 0
    ensures Strided(Affine(sig, k, c), stride) == Affine(Strided(sig, stride), k, c)
    decreases |sig|
  {
    var a := Affine(sig, k, c);
    if |sig| > stride {
      var rest := sig[stride..];
      assert a[stride..] == Affine(rest, k, c);
      StridedAffine(rest, stride, k, c);
      assert Strided(sig, stride) == [sig[0]] + Strided(rest, stride);
      assert Strided(a, stride) == [a[0]] + Strided(a[stride..], stride);
      AffineCons(sig[0], Strided(rest, stride), k, c);
    } else if |sig| > 0 {
      assert Strided(sig, stride) == [sig[0]] + [];
      assert Strided(a, stride) == [a[0]];
      assert Affine([sig[0]], k, c)[0] == a[0];
    } else {
      assert Affine(Strided(sig, stride), k, c) == [];
    }
  }

  /** A gain and an offset scale the distance between two values by the gain. */
  lemma ScaleDistance(lo: real, hi: real, k: real, c: real)
    ensures Rescale(hi, k, c) - Rescale(lo, k, c) == k * (hi - lo)
    ensures k > 0.0 ==> (k * (hi - lo) == 0.0 <==> hi - lo == 0.0)
  {
    if k > 0.0 && hi < lo { assert k * (lo - hi) > 0.0; }
  }

  /** When a gain and an offset map the extremes, they map the range by the gain alone. */
  lemma RangeOfExtremes(s: seq<real>, a: seq<real>, k: real, c: real)
    requires k > 0.0 && |s| > 0 && |a| > 0
    requires SeqMin(a) == Rescale(SeqMin(s), k, c) && SeqMax(a) == Rescale(SeqMax(s), k, c)
    ensures SeqMax(a) - SeqMin(a) == k * (SeqMax(s) - SeqMin(s))
    ensures SeqMax(a) - SeqMin(a) == 0.0 <==> SeqMax(s) - SeqMin(s) == 0.0
  {
    ScaleDistance(SeqMin(s), SeqMax(s), k, c);
  }

  /** The range of the scaled signal is the range times the gain; it is zero exactly when the range is. */
  lemma RangeAffine(s: seq<real>, k: real, c: real)
    requires k > 0.0 && |s| > 0
    ensures SeqMax(Affine(s, k, c)) - SeqMin(Affine(s, k, c)) == k * (SeqMax(s) - SeqMin(s))
    ensures SeqMax(Affine(s, k, c)) - SeqMin(Affine(s, k, c)) == 0.0 <==> SeqMax(s) - SeqMin(s) == 0.0
  {
    MinAffine(s, k, c);
    MaxAffine(s, k, c);
    RangeOfExtremes(s, Affine(s, k, c), k, c);
  }

  /** A positive gain and an offset leave a zero range zero and a non-zero one non-zero. */
  lemma ZeroRangeAffine(s: seq<real>, k: real, c: real)
    requires k > 0.0 && |s| > 0
    ensures SeqMax(Affine(s, k, c)) - SeqMin(Affine(s, k, c)) == 0.0 <==> SeqMax(s) - SeqMin(s) == 0.0
  {
    RangeAffine(s, k, c);
  }

  /**
   * Scaling a sample and the window's two ends by one positive gain and one
   * offset leaves the code unchanged: y = k x + c against [k lo + c, k hi + c]
   * codes like x against [lo, hi].
   */
  lemma QuantizeScaled(x: real, y: real, lo: real, hi: real, lo2: real, hi2: real, k: real, c: real)
    requires hi - lo != 0.0 && k > 0.0
    requires y == Rescale(x, k, c) && lo2 == Rescale(lo, k, c) && hi2 == Rescale(hi, k, c)
    ensures hi2 - lo2 != 0.0
    ensures Quantize(y, lo2, hi2 - lo2) == Quantize(x, lo, hi - lo)
  {
    ScaleDistance(lo, hi, k, c);
    var range, range2 := hi - lo, hi2 - lo2;
    assert range2 == k * range;
    assert y - lo2 == k * (x - lo);
    assert (y - lo2) / range2 == (x - lo) / range by {
      assert k * (x - lo) / (k * range) == (x - lo) / range;
    }
  }

  /** Coding scaled samples against a window scaled alike gives the same codes. */
  lemma CodesAffine(kept: seq<real>, lo: real, hi: real, scaled: seq<real>, lo2: real, hi2: real, k: real, c: real)
    requires hi - lo != 0.0 && k > 0.0
    requires scaled == Affine(kept, k, c) && lo2 == Rescale(lo, k, c) && hi2 == Rescale(hi, k, c)
    ensures hi2 - lo2 != 0.0
    ensures Codes(scaled, lo2, hi2 - lo2) == Codes(kept, lo, hi - lo)
  {
    QuantizeScaled(lo, lo2, lo, hi, lo2, hi2, k, c);
    var x, y := Codes(scaled, lo2, hi2 - lo2), Codes(kept, lo, hi - lo);
    forall j | 0 <= j < |kept|
      ensures x[j] == y[j]
    {
      QuantizeScaled(kept[j], scaled[j], lo, hi, lo2, hi2, k, c);
    }
  }

  /** The resampled codes are the codes of sig[::stride] against sig's own window. */
  lemma SampleCodesAreCodes(sig: seq<real>, stride: nat)
    requires stride > 0 && |sig| > 0 && SeqMax(sig) - SeqMin(sig) != 0.0
    ensures SampleCodes(sig, stride) == Codes(Strided(sig, stride), SeqMin(sig), SeqMax(sig) - SeqMin(sig))
  {
    var x, y := SampleCodes(sig, stride), Codes(Strided(sig, stride), SeqMin(sig), SeqMax(sig) - SeqMin(sig));
    assert |x| == |y|;
    forall j | 0 <= j < |x|
      ensures x[j] == y[j]
    {
    }
  }

  /** A signal whose kept samples and extremes are sig's, scaled, has sig's codes. */
  lemma CodesOfScaled(sig: seq<real>, a: seq<real>, stride: nat, k: real, c: real)
    requires stride > 0 && k > 0.0 && |sig| > 0 && |a| > 0 && SeqMax(sig) - SeqMin(sig) != 0.0
    requires Strided(a, stride) == Affine(Strided(sig, stride), k, c)
    requires SeqMin(a) == Rescale(SeqMin(sig), k, c) && SeqMax(a) == Rescale(SeqMax(sig), k, c)
    ensures SeqMax(a) - SeqMin(a) != 0.0
    ensures SampleCodes(a, stride) == SampleCodes(sig, stride)
  {
    CodesAffine(Strided(sig, stride), SeqMin(sig), SeqMax(sig), Strided(a, stride), SeqMin(a), SeqMax(a), k, c);
    SampleCodesAreCodes(a, stride);
    SampleCodesAreCodes(sig, stride);
  }

  /** sig under a positive gain and an offset keeps a non-zero range and has sig's codes. */
  lemma SampleCodesAffine(sig: seq<real>, stride: nat, k: real, c: real)
    requires stride > 0 && k > 0.0 && |sig| > 0 && SeqMax(sig) - SeqMin(sig) != 0.0
    ensures SeqMax(Affine(sig, k, c)) - SeqMin(Affine(sig, k, c)) != 0.0
    ensures SampleCodes(Affine(sig, k, c), stride) == SampleCodes(sig, stride)
  {
    MinAffine(sig, k, c);
    MaxAffine(sig, k, c);
    StridedAffine(sig, stride, k, c);
    CodesOfScaled(sig, Affine(sig, k, c), stride, k, c);
  }

  /**
   * ADC_sampling is blind to a positive gain and an offset on its input:
   * it fails for k x + c exactly when it fails for x, and otherwise returns
   * the same time axis and the same codes.
   */
  lemma AdcSamplingAffine(sig: seq<real>, k: real, c: real, fSample: nat, oldFSample: nat)
    requires k > 0.0
    ensures AdcSampling(Affine(sig, k, c), fSample, oldFSample) == AdcSampling(sig, fSample, oldFSample)
  {
    var a := Affine(sig, k, c);
    if fSample == 0 || oldFSample / fSample == 0 {
    } else if |sig| == 0 {
      assert a == [];
    } else if SeqMax(sig) - SeqMin(sig) == 0.0 {
      ZeroRangeAffine(sig, k, c);
      assert AdcSampling(a, fSample, oldFSample) == Error("zero full-scale range");
    } else {
      ZeroRangeAffine(sig, k, c);
      var stride := oldFSample / fSample;
      SampleCodesAffine(sig, stride, k, c);
      var codes := SampleCodes(sig, stride);
      var count := Min(WindowSamples(fSample), |codes|);
      var axis := Linspace(0.0, TInterval, WindowSamples(fSample));
      assert AdcSampling(a, fSample, oldFSample) == Ok((axis[..count], codes[..count]));
      assert AdcSampling(sig, fSample, oldFSample) == Ok((axis[..count], codes[..count]));
    }
  }

  function Min(a: int, b: int): int
  {
    if a < b then a else b
  }

  lemma MulNonNegative(a: real, b: real)
    requires a >= 0.0 && b >= 0.0
    ensures a * b >= 0.0
  {
  }

  /** Point k of linspace(0, stop, num) lies in [0, stop] and above point k - 1. */
  lemma LinspacePoint(stop: real, num: nat, k: nat)
    requires stop > 0.0 && 2 <= num && k < num
    ensures 0.0 <= Linspace(0.0, stop, num)[k] <= stop
    ensures k > 0 ==> Linspace(0.0, stop, num)[k - 1] < Linspace(0.0, stop, num)[k]
  {
    var r := Linspace(0.0, stop, num);
    var last, t := (num - 1) as real, k as real;
    var step := stop / last;
    assert step > 0.0;
    assert r[k] == t * step;
    assert last * step == stop;
    MulNonNegative(t, step);
    MulNonNegative(last - t, step);
    assert t * step == last * step - (last - t) * step;
    if k > 0 {
      assert r[k - 1] == (t - 1.0) * step;
      assert (t - 1.0) * step + step == t * step;
    }
  }

  /** linspace(0, stop, num) starts at 0, rises strictly and stays in [0, stop]. */
  lemma LinspaceAxis(stop: real, num: nat)
    requires stop > 0.0
    ensures var r := Linspace(0.0, stop, num);
      && (|r| > 0 ==> r[0] == 0.0)
      && (forall k :: 0 <= k < |r| ==> 0.0 <= r[k] <= stop)
      && (forall k :: 0 < k < |r| ==> r[k - 1] < r[k])
  {
    if num >= 2 {
      forall k | 0 <= k < num
        ensures 0.0 <= Linspace(0.0, stop, num)[k] <= stop
        ensures k > 0 ==> Linspace(0.0, stop, num)[k - 1] < Linspace(0.0, stop, num)[k]
      {
        LinspacePoint(stop, num, k);
      }
    }
  }

  // ---------------------------------------------------------------------
  // Recentring
  // ---------------------------------------------------------------------

  /** `[s - 15 for s in codes]`: shifts the codes to be centred on zero. */
  function Recentre(codes: seq<int>): (r: seq<int>)
    ensures |r| == |codes|
  {
    seq(|codes|, i requires 0 <= i < |codes| => codes[i] - 15)
  }

  /**
   * Recentred ADC codes lie in -15..16, so they fit the signed 6-bit fixed
   * point format (-32..31) the back end stores them in.
   */
  lemma RecentredRange(codes: seq<int>)
    requires forall i :: 0 <= i < |codes| ==> 0 <= codes[i] <= 31
    ensures forall i :: 0 <= i < |codes| ==> -15 <= Recentre(codes)[i] <= 16
    ensures forall i :: 0 <= i < |codes| ==> -32 <= Recentre(codes)[i] <= 31
  {
  }
}
