/**
 The circular sample buffer: a power-of-two array of samples, a write
 counter that is never wrapped (only the addresses derived from it are), and
 four readers that look back from the write counter by a possibly fractional
 delay.
 */
module DelayLine {
  import opened Addressing
  import opened IntegralFractional
  import opened Interpolation

  /**
   What a reader sees `d` writes back from the most recent write of `writes`:
   that write's value, or the zero fill when fewer writes were made.
   */
  function Recall(writes: seq<real>, d: int): real
  {
    if 0 <= d < |writes| then writes[|writes| - 1 - d] else 0.0
  }

  class CircularBuffer {
    /** The sample storage; null until `InitBuffer` allocates it. */
    var buffer: array?<real>
    /** The capacity, a `uint32_t` power of two. */
    var size: nat
    /** `size - 1`, a `uint32_t`. */
    var mask: nat
    var sampleRate: int
    /** The position of the most recent write; it only ever grows by one. */
    var writePointer: int

    /** The values written since the last `InitBuffer`, oldest first. */
    ghost var Writes: seq<real>

    /**
     The buffer is allocated with a power-of-two size and its mask, and looking
     back `d < size` slots from `writePointer` finds the value written `d`
     writes ago (or zero).
     */
    ghost predicate Valid()
      reads this, buffer
    {
      && buffer != null
      && IsPow2(size) && size <= Int32Max
      && buffer.Length == size
      && mask == size - 1
      && forall d :: 0 <= d < size ==> buffer[(writePointer - d) % size] == Recall(Writes, d)
    }

    /** The state before any allocation: no storage, size and mask zero. */
    constructor ()
      ensures buffer == null && size == 0 && mask == 0
      ensures sampleRate == 44100 && writePointer == 0
      ensures Writes == []
    {
      writePointer := 0;
      size := 0;
      mask := 0;
      sampleRate := 44100;
      buffer := null;
      Writes := [];
    }

    /**
     Allocates `numSamples` zeroed slots and sets the mask. The write counter
     keeps its value.
     */
    method InitBuffer(numSamples: int)
      requires 0 <= numSamples <= Int32Max && CapacityOk(numSamples)
      modifies this
      ensures Valid() && fresh(buffer)
      ensures size == numSamples && mask == numSamples - 1
      ensures forall j :: 0 <= j < size ==> buffer[j] == 0.0
      ensures writePointer == old(writePointer) && sampleRate == old(sampleRate)
      ensures Writes == []
    {
      var a := new real[numSamples];
      for i := 0 to numSamples
        invariant forall j :: 0 <= j < i ==> a[j] == 0.0
        modifies a
      {
        a[i] := 0.0;
      }
      size := numSamples;
      mask := ToUint32(size - 1);
      buffer := a;
      Writes := [];
    }

    /** Advances the write counter and stores `value` at its masked slot. */
    method WriteBuffer(value: real)
      requires Valid()
      modifies this`writePointer, this`Writes, buffer
      ensures Valid()
      ensures writePointer == old(writePointer) + 1
      ensures Writes == old(Writes) + [value]
      ensures buffer[writePointer % size] == value
      ensures forall j :: 0 <= j < size && j != writePointer % size ==> buffer[j] == old(buffer[j])
      ensures writePointer >= 0 ==> ReadBuffer(0.0) == value
    {
      ghost var before, history := buffer[..], Writes;
      writePointer := writePointer + 1;
      MaskedIsMod(writePointer, size);
      buffer[Masked(writePointer, mask)] := value;
      Writes := Writes + [value];
      forall d | 0 <= d < size
        ensures buffer[(writePointer - d) % size] == Recall(Writes, d)
      {
        if d > 0 {
          var p := (writePointer - d) % size;
          SlotsDistinct(writePointer, d, size);
          assert writePointer - d == old(writePointer) - (d - 1);
          assert before[p] == Recall(history, d - 1);
          assert Recall(Writes, d) == Recall(history, d - 1);
        }
      }
    }

    /**
     The value a tap at absolute position `p` must see: the one written
     `(writePointer - p) mod size` writes ago.
     */
    ghost function Tap(p: int): real
      reads this
      requires size > 0
    {
      Recall(Writes, (writePointer - p) % size)
    }

    /** Looking back `k` from the write counter is recalling `k mod size` writes. */
    lemma TapBack(k: int)
      requires size > 0
      ensures Tap(writePointer - k) == Recall(Writes, k % size)
    {
    }

    /** The masked access `*(buffer + (p & mask))` finds what `Tap(p)` promises. */
    function Sample(p: int): (x: real)
      reads this, buffer
      requires Valid()
      ensures x == Tap(p)
    {
      MaskedIsMod(p, size);
      var d := (writePointer - p) % size;
      ModSubMod(writePointer, writePointer - p, size);
      assert buffer[(writePointer - d) % size] == Recall(Writes, d);
      buffer[Masked(p, mask)]
    }

    /**
     Reads without interpolation. The read position is truncated toward zero
     before the conversion to `uint32_t`, so it must lie above -1. A fractional
     delay is rounded up to whole samples, a position in `(-1, 0)` reads slot 0,
     and a delay of `size` or more wraps around.
     */
    function ReadBuffer(delay: real): (r: real)
      reads this, buffer
      requires Valid()
      requires delay < writePointer as real + 1.0
      ensures r == Recall(Writes, (writePointer - Truncate(writePointer as real - delay)) % size)
      ensures delay <= writePointer as real ==> r == Recall(Writes, Ceiling(delay) % size)
      ensures delay <= writePointer as real && 0 <= Ceiling(delay) < size ==> r == Recall(Writes, Ceiling(delay))
      ensures writePointer as real < delay ==> r == Recall(Writes, writePointer % size)
    {
      var c := Ceiling(delay);
      var x := Sample(Truncate(writePointer as real - delay));
      if delay <= writePointer as real then
        TruncateOfShift(writePointer, delay);
        TapBack(c);
        if 0 <= c < size then ModUnique(c, size, 0, c); x else x
      else
        x
    }

    /**
     Reads with linear interpolation between the taps at the whole part `i`
     of the read position and at `i + 1`. For a non-negative read position
     these are the values written `Ceiling(delay)` and `Ceiling(delay) - 1`
     writes ago, weighted by how far `delay` falls short of its ceiling.
     */
    function ReadBufferLinear(delay: real): (r: real)
      reads this, buffer
      requires Valid()
      ensures var s := GetIntegralFractional(writePointer as real - delay);
        r == Linear(Tap(s.integral), Tap(s.integral + 1), s.fractional)
    {
      var s := GetIntegralFractional(writePointer as real - delay);
      Linear(Sample(s.integral), Sample(s.integral + 1), s.fractional)
    }

    /** Reads with the four-tap cubic kernel over the taps `i - 1 .. i + 2`. */
    function ReadBufferCubic(delay: real): (r: real)
      reads this, buffer
      requires Valid()
      ensures var s := GetIntegralFractional(writePointer as real - delay);
        var i := s.integral;
        r == Cubic(Tap(i - 1), Tap(i), Tap(i + 1), Tap(i + 2), s.fractional)
    {
      var s := GetIntegralFractional(writePointer as real - delay);
      var i := s.integral;
      Cubic(Sample(i - 1), Sample(i), Sample(i + 1), Sample(i + 2), s.fractional)
    }

    /** Reads with the four-tap Hermite kernel over the taps `i - 1 .. i + 2`. */
    function ReadBufferHermite(delay: real): (r: real)
      reads this, buffer
      requires Valid()
      ensures var s := GetIntegralFractional(writePointer as real - delay);
        var i := s.integral;
        r == Hermite(Tap(i - 1), Tap(i), Tap(i + 1), Tap(i + 2), s.fractional)
    {
      var s := GetIntegralFractional(writePointer as real - delay);
      var i := s.integral;
      Hermite(Sample(i - 1), Sample(i), Sample(i + 1), Sample(i + 2), s.fractional)
    }

    /**
     For a non-negative read position the interpolating readers look back
     `Ceiling(delay)` writes, and one more and one or two fewer for the outer
     taps, with the fraction `Ceiling(delay) - delay` in `[0, 1)`.
     */
    lemma InterpolatingReadsAtDelay(delay: real)
      requires Valid() && delay <= writePointer as real
      ensures var c := Ceiling(delay);
        var f := c as real - delay;
        && 0.0 <= f < 1.0
        && ReadBufferLinear(delay) == Linear(Recall(Writes, c % size), Recall(Writes, (c - 1) % size), f)
        && ReadBufferCubic(delay) == Cubic(Recall(Writes, (c + 1) % size), Recall(Writes, c % size),
                                           Recall(Writes, (c - 1) % size), Recall(Writes, (c - 2) % size), f)
        && ReadBufferHermite(delay) == Hermite(Recall(Writes, (c + 1) % size), Recall(Writes, c % size),
                                               Recall(Writes, (c - 1) % size), Recall(Writes, (c - 2) % size), f)
    {
      var c := Ceiling(delay);
      TruncateOfShift(writePointer, delay);
      var s := GetIntegralFractional(writePointer as real - delay);
      assert s == Split(writePointer - c, c as real - delay);
      TapBack(c + 1);
      TapBack(c);
      TapBack(c - 1);
      TapBack(c - 2);
      assert s.integral - 1 == writePointer - (c + 1);
      assert s.integral + 1 == writePointer - (c - 1);
      assert s.integral + 2 == writePointer - (c - 2);
    }

    /**
     At a whole delay `d` the three interpolating readers return the stored
     sample itself, the one the plain reader returns.
     */
    lemma WholeDelayReadsAgree(d: int)
      requires Valid() && 0 <= d <= writePointer
      ensures ReadBufferLinear(d as real) == ReadBuffer(d as real)
      ensures ReadBufferCubic(d as real) == ReadBuffer(d as real)
      ensures ReadBufferHermite(d as real) == ReadBuffer(d as real)
      ensures d < size ==> ReadBuffer(d as real) == Recall(Writes, d)
    {
      assert Ceiling(d as real) == d;
      InterpolatingReadsAtDelay(d as real);
    }
  }

  /**
   A capacity-8 buffer after the writes 1, 2, ..., 8: the plain reader finds 8
   at delay 0 and 7 at delay 1, and the linear reader finds 7.5 at delay 0.5.
   */
  method EightSampleScenario() returns (newest: real, previous: real, halfway: real)
    ensures newest == 8.0 && previous == 7.0 && halfway == 7.5
  {
    assert IsPow2(2) && IsPow2(4) && IsPow2(8);
    var cb := new CircularBuffer();
    cb.InitBuffer(8);
    var storage := cb.buffer;
    for k := 1 to 9
      invariant cb.Valid() && cb.buffer == storage && cb.size == 8 && cb.writePointer == k - 1
      invariant cb.Writes == seq(k - 1, j => (j + 1) as real)
      modifies cb, cb.buffer
    {
      cb.WriteBuffer(k as real);
    }
    assert cb.writePointer == 8 && cb.size == 8;
    assert Ceiling(0.0) == 0 && Ceiling(1.0) == 1 && Ceiling(0.5) == 1;
    newest := cb.ReadBuffer(0.0);
    previous := cb.ReadBuffer(1.0);
    halfway := cb.ReadBufferLinear(0.5);
    cb.InterpolatingReadsAtDelay(0.5);
  }
}
