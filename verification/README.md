# Circular sample buffer: a Dafny model

This project models `CircularBuffer`, the delay line of an audio delay effect.
The buffer stores samples in a power-of-two array. A write counter,
`writePointer`, only ever counts up. Every access reduces its position with
`& mask`, where `mask == size - 1`. One writer and four readers share this
addressing:

- `writeBuffer` advances the counter and stores one sample.
- `readBuffer` reads without interpolation.
- `readBufferLinear` interpolates between two taps.
- `readBufferCubic` and `readBufferHermite` interpolate over four taps.

Each reader looks back from `writePointer` by a delay that may be fractional.

The model has four modules:

- `Addressing` (`addressing.dfy`) models the C++ conversion of a signed index
  to `uint32_t`, the bitwise AND and the `initBuffer` power-of-two test. It
  proves that `idx & (size - 1)` is the Euclidean `idx % size` for a
  power-of-two `size`. That also holds for the negative tap `integral - 1`.
- `IntegralFractional` (`integral_fractional.dfy`) models the
  `GET_INTEGRAL_FRACTIONAL` split, which truncates toward zero.
- `Interpolation` (`interpolation.dfy`) holds the linear, cubic and Hermite
  formulas and their algebraic properties.
- `DelayLine` (`circular_buffer.dfy`) holds the class `CircularBuffer` itself.
  It has the array, `size`, `mask`, `sampleRate` and `writePointer`.
  - `InitBuffer` and `WriteBuffer` are methods that change this state.
  - The four readers are functions of the current state, so they change nothing.
    Two calls with the same delay and no write in between give the same value.
  - A ghost history `Writes` holds the values written since the last
    `InitBuffer`. The invariant `Valid()` ties every slot to it: looking back
    `d < size` slots from `writePointer` finds the value written `d` writes ago,
    or the zero fill.

Samples and delays are reals, so the model leaves out float rounding.
`writePointer` is an unbounded integer.

Details of the code that the model follows exactly:

- The write counter is never wrapped. Only the address derived from it is.
- The interpolating readers get the whole part of the read position by
  truncation toward zero, not by floor. For a negative read position, such as
  a delay longer than the writes so far, the fraction is negative or zero.
- `readBuffer` truncates the read position `writePointer - delay`, not the
  delay. So for a non-negative read position a fractional delay is rounded
  up: `ReadBuffer` returns the value written `Ceiling(delay)` writes ago.
- An invalid capacity is not reported as an error. `initBuffer` only checks it
  with debug assertions, so the model states it as a precondition.
- The header declares `buffer` as a `juce::AudioBuffer<float>`. The
  implementation uses it as a flat `malloc`'d `float` array. The model follows
  the implementation.

## Model

| member | source | states |
|---|---|---|
| `Addressing.ToUint32` | Source/CircularBuffer.cpp:73 | converting a signed index to `uint32_t` gives the unique value below 2^32 that is congruent to it modulo 2^32, and leaves values already in range unchanged |
| `Addressing.BitAnd` | Source/CircularBuffer.cpp:73 | the bitwise AND of two non-negative words is at most either operand |
| `Addressing.Masked` | Source/CircularBuffer.cpp:73 | `idx & mask` never exceeds `mask` |
| `Addressing.MaskIsMod` | Source/CircularBuffer.cpp:124-125 | for a power-of-two `size`, AND with `size - 1` keeps the low bits: it equals the remainder modulo `size` |
| `Addressing.WrapThenMod` | Source/CircularBuffer.cpp:141 | the conversion to `uint32_t` does not change the remainder modulo a power of two of at most 2^32, even for a negative index |
| `Addressing.MaskedIsMod` | Source/CircularBuffer.cpp:141-144 | every masked address, including the taps `integral - 1`, `+ 1` and `+ 2`, equals `idx mod size` and lies in `[0, size)` |
| `Addressing.SlotsDistinct` | Source/CircularBuffer.cpp:73 | two positions fewer than `size` apart map to different slots, so a write leaves the other `size - 1` recent samples intact |
| `Addressing.AndPredecessor` | Source/CircularBuffer.cpp:49 | for `n >= 1`, `n & (n - 1) == 0` holds exactly when `n` is a power of two |
| `Addressing.PowerOfTwoCheck` | Source/CircularBuffer.cpp:49 | the as-written test accepts exactly zero and the powers of two |
| `Addressing.CapacityOk` | Source/CircularBuffer.cpp:48-49 | the corrected test, positive and passing the bit test, accepts exactly the powers of two |
| `Addressing.ZeroCapacityPassesCheck` | Source/CircularBuffer.cpp:49-52 | zero passes the test although it is not a power of two; its mask becomes 2^32 - 1, and the first write addresses slot 1 |
| `IntegralFractional.Truncate` | Source/CircularBuffer.h:20 | the integral part is the whole number between zero and `x` that is less than one away from `x`: truncation toward zero |
| `IntegralFractional.GetIntegralFractional` | Source/CircularBuffer.h:19-21 | the two parts add up to `x` exactly; for `x >= 0` the fraction is in `[0, 1)`, and for `x < 0` it is in `(-1, 0]` |
| `IntegralFractional.SplitOfWhole` | Source/CircularBuffer.h:19-21 | a whole position splits into itself and a zero fraction |
| `IntegralFractional.TruncateOfShift` | Source/CircularBuffer.cpp:100 | for a non-negative read position, truncating `writePointer - delay` gives `writePointer - Ceiling(delay)` |
| `Interpolation.Linear` | Source/CircularBuffer.cpp:127 | the formula returns `x0` at fraction 0, `x1` at 1 and their mean at 0.5, and stays between `x0` and `x1` for a fraction in `[0, 1]` |
| `Interpolation.LinearStaysBetween` | Source/CircularBuffer.cpp:127 | for a fraction in `[0, 1]`, `x0 + (x1 - x0) * f` lies between the two taps |
| `Interpolation.Cubic` | Source/CircularBuffer.cpp:146-155 | the difference-coefficient cubic returns `x0` at fraction 0 and `x1` at 1, and returns the constant when all four taps are equal |
| `Interpolation.CubicSlope` | Source/CircularBuffer.cpp:149-155 | the slope of that cubic is `x1 - xm1` at fraction 0 and `x2 - x0` at 1 |
| `Interpolation.Hermite` | Source/CircularBuffer.cpp:174-179 | the Horner-form Hermite polynomial returns `x0` at fraction 0 and `x1` at 1, returns the constant for four equal taps, and reproduces a straight line exactly |
| `Interpolation.HermiteSlope` | Source/CircularBuffer.cpp:174-177 | the slope of the Hermite polynomial is the Catmull-Rom tangent: `(x1 - xm1) / 2` at fraction 0 and `(x2 - x0) / 2` at 1 |
| `Interpolation.HornerShift` | Source/CircularBuffer.cpp:179 | for the Horner-form cubic `((c3 f + c2) f + c1) f + c0`, a step `h` from `f` changes the value by exactly `h` times `(3 c3 f + 2 c2) f + c1` plus `h^2` times a polynomial, so that slope is its derivative |
| `Interpolation.HermiteIsHorner` | Source/CircularBuffer.cpp:174-179 | the Hermite kernel and `HermiteSlope` are that cubic and its slope over the coefficients `c1, c2, c3` of the code, so `HermiteSlope` is the derivative of the kernel |
| `Interpolation.CubicIsHorner` | Source/CircularBuffer.cpp:149-155 | the cubic kernel and `CubicSlope` are that cubic and its slope over `a2, a1, a0`, so `CubicSlope` is the derivative of the kernel |
| `Interpolation.OnlyHermiteKeepsStraightLines` | Source/CircularBuffer.cpp:146-179 | on the straight line -1, 0, 1, 2 at fraction 0.25 the Hermite kernel returns 0.25, on the line, while the cubic kernel returns 0.34375 |
| `Interpolation.HermiteJoinsSmoothly` | Source/CircularBuffer.cpp:174-179 | adjacent Hermite segments meet with equal value and equal slope, so the curve has no kinks at sample points |
| `Interpolation.CubicJoinsSmoothly` | Source/CircularBuffer.cpp:146-155 | adjacent cubic segments also meet with equal value and slope, and their slopes are twice the Hermite tangents |
| `DelayLine.CircularBuffer.constructor` | Source/CircularBuffer.cpp:16-23 | a new buffer has no storage, `size == mask == 0`, `writePointer == 0` and sample rate 44100 |
| `DelayLine.CircularBuffer.InitBuffer` | Source/CircularBuffer.cpp:46-65 | for a power-of-two `numSamples`, it allocates fresh storage of that size, sets `mask == size - 1`, zeroes every slot, leaves `writePointer` as it was and establishes the invariant |
| `DelayLine.CircularBuffer.WriteBuffer` | Source/CircularBuffer.cpp:72-74 | `writePointer` grows by exactly one, `value` lands in slot `writePointer mod size` of the new counter, every other slot and `size`/`mask` are unchanged, the invariant is kept, and a zero-delay read right after returns `value` |
| `DelayLine.CircularBuffer.Sample` | Source/CircularBuffer.cpp:141-144 | the masked access at position `p` finds the value written `(writePointer - p) mod size` writes ago, or zero |
| `DelayLine.CircularBuffer.ReadBuffer` | Source/CircularBuffer.cpp:99-101 | for any read position above -1, the result is the value written `writePointer - trunc(writePointer - delay)` (mod `size`) writes ago; for a non-negative position that is `Ceiling(delay) mod size` writes ago (zero if there was none), and exactly `Ceiling(delay)` when that is below `size`; a position in `(-1, 0)` truncates to 0 and reads slot 0, the value written `writePointer mod size` writes ago |
| `DelayLine.CircularBuffer.ReadBufferLinear` | Source/CircularBuffer.cpp:118-128 | the result is the linear kernel over the samples the taps at the integral part `i` and at `i + 1` must see, weighted by the fraction |
| `DelayLine.CircularBuffer.ReadBufferCubic` | Source/CircularBuffer.cpp:134-156 | the result is the cubic kernel over the samples the taps at `i - 1` to `i + 2` must see |
| `DelayLine.CircularBuffer.ReadBufferHermite` | Source/CircularBuffer.cpp:162-180 | the result is the Hermite kernel over the samples the taps at `i - 1` to `i + 2` must see |
| `DelayLine.CircularBuffer.TapBack` | Source/CircularBuffer.cpp:120 | a tap at `writePointer - k` sees the value written `k mod size` writes ago |
| `DelayLine.CircularBuffer.InterpolatingReadsAtDelay` | Source/CircularBuffer.cpp:118-180 | for a non-negative read position, the interpolating readers combine the values written `Ceiling(delay) + 1` down to `Ceiling(delay) - 2` writes ago, with the fraction `Ceiling(delay) - delay` in `[0, 1)` |
| `DelayLine.CircularBuffer.WholeDelayReadsAgree` | Source/CircularBuffer.cpp:99-180 | at a whole delay all four readers return the same stored sample; below `size` it is the value written that many writes ago |
| `DelayLine.EightSampleScenario` | Source/CircularBuffer.cpp:72-128 | with capacity 8 and the writes 1 to 8, `ReadBuffer(0)` is 8, `ReadBuffer(1)` is 7 and `ReadBufferLinear(0.5)` is 7.5 |

## Left out

- `CircularBuffer::prepare` (Source/CircularBuffer.cpp:31-38) only copies a JUCE sample rate after debug assertions. `sampleRate` is kept as a field and set only by the constructor.
- The destructor and the `malloc`/`free` life cycle are left out. That covers the failed-allocation branch at Source/CircularBuffer.cpp:57 and the leak of the previous array when `initBuffer` is called again. The model's `InitBuffer` always gets a fresh array.
- Samples, delays and the float read position are reals, so IEEE rounding is left out. Precision loss when `writePointer` is converted to `float` is left out too.
- `writePointer` is an unbounded integer, so its `int` overflow after 2^31 writes is not modelled. Neither is the `int32_t` range of the integral part.
- DelayLine.CircularBuffer.ReadBuffer: requires the read position `writePointer - delay` to lie above -1. The code truncates it toward zero before the conversion to `uint32_t`, and that conversion is undefined once the truncated value is negative, i.e. for positions at or below -1. A position of 2^32 or more, also undefined there, is reduced modulo 2^32.
- DelayLine.CircularBuffer.InitBuffer: requires a positive power of two, the corrected test, rather than the as-written test that also lets zero through (see Findings).
- The plug-in processor, its parameter handling and `processBlock` (Source/PluginProcessor.cpp), and the editor (Source/PluginEditor.cpp, Source/PluginEditor.h) are host and GUI glue around the buffer.
- The claim that Hermite interpolation sounds better than linear interpolation is about spectra and floating point, so it is not a contract. The model only proves the algebraic facts behind it: Hermite has matching slopes at sample points and reproduces straight lines.

## Findings

| source | as written | input that shows it | evidently intended | confidence | as-written member | corrected member |
|---|---|---|---|---|---|---|
| Source/CircularBuffer.cpp:49 | the power-of-two assertion `(numSamples & (numSamples - 1)) == 0` also accepts 0 | `initBuffer(0)`: the test passes, `size` becomes 0 and `mask` becomes `0xFFFFFFFF`; the first `writeBuffer` then stores to slot 1 of an empty allocation | accept only positive powers of two, as the comment "numSamples needs to be a power of 2" says | medium, not executed | `Addressing.PowerOfTwoCheck` | `Addressing.CapacityOk` |
