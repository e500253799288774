/** Conversions between `std::chrono` durations and the kernel's split time values. */
module TimeConversion {

  const NANOS: int := 1_000_000_000
  const MICROS: int := 1_000_000

  type int64 = n: int | -0x8000_0000_0000_0000 <= n < 0x8000_0000_0000_0000

  /** C++ division: the quotient is truncated toward zero. */
  function TruncDiv(a: int, b: int): (q: int)
    requires b > 0
    ensures a >= 0 ==> q * b <= a < q * b + b
    ensures a <= 0 ==> q * b - b < a <= q * b
  {
    if a >= 0 then a / b else -(-a / b)
  }

  /** C++ remainder: it has the sign of the dividend. */
  function TruncRem(a: int, b: int): (r: int)
    requires b > 0
    ensures -b < r < b
    ensures r > 0 ==> a > 0
    ensures r < 0 ==> a < 0
  {
    a - TruncDiv(a, b) * b
  }

  /** `timespec` and `__kernel_timespec`. */
  datatype Timespec = Timespec(sec: int64, nsec: int64)

  /** `to_kernel_timespec`: whole seconds by `duration_cast`, the rest by subtraction. */
  function ToKernelTimespec(nanos: int64): (ts: Timespec)
    ensures -NANOS < ts.nsec < NANOS
    ensures ts.nsec > 0 ==> nanos > 0
    ensures ts.nsec < 0 ==> nanos < 0
  {
    var sec := TruncDiv(nanos, NANOS);
    Timespec(sec, nanos - sec * NANOS)
  }

  /** The nanosecond count of a split value, before it is stored in sixty-four bits. */
  function NanosOf(ts: Timespec): int {
    ts.sec * NANOS + ts.nsec
  }

  predicate Fits(n: int) {
    -0x8000_0000_0000_0000 <= n < 0x8000_0000_0000_0000
  }

  /** `from_kernel_timespec` and `from_timespec_duration`: defined where neither the product nor the sum overflows. */
  function FromKernelTimespec(ts: Timespec): (nanos: int64)
    requires Fits(ts.sec * NANOS) && Fits(NanosOf(ts))
  {
    NanosOf(ts)
  }

  /** `to_timespec` of the clock: quotient and remainder. */
  function ToTimespec(nanos: int64): (ts: Timespec) {
    Timespec(TruncDiv(nanos, NANOS), TruncRem(nanos, NANOS))
  }

  /** For every sixty-four-bit count: splitting and joining is the identity, nothing overflows on the way, and the two
      splitting functions agree. */
  lemma TimespecRoundTrip(nanos: int64)
    ensures var ts := ToKernelTimespec(nanos);
            && Fits(ts.sec * NANOS) && Fits(NanosOf(ts)) && FromKernelTimespec(ts) == nanos
            && ToTimespec(nanos) == ts
            && nanos == ts.sec * 1_000_000_000 + ts.nsec && -1_000_000_000 < ts.nsec < 1_000_000_000
            && (nanos >= 0 ==> ts.sec >= 0 && ts.nsec >= 0) && (nanos <= 0 ==> ts.sec <= 0 && ts.nsec <= 0)
  {
    var sec := TruncDiv(nanos, NANOS);
    assert nanos >= 0 ==> 0 <= sec * NANOS <= nanos;
    assert nanos <= 0 ==> nanos <= sec * NANOS <= 0;
  }

  /** A split value is the only one of its count with a sub-second part of matching sign. */
  lemma TimespecUnique(ts: Timespec)
    requires Fits(NanosOf(ts)) && -NANOS < ts.nsec < NANOS
    requires (ts.nsec > 0 ==> ts.sec >= 0) && (ts.nsec < 0 ==> ts.sec <= 0)
    ensures ToKernelTimespec(NanosOf(ts)) == ts
  {
    var n := NanosOf(ts);
    var q := TruncDiv(n, NANOS);
    assert ts.sec > q ==> ts.sec * NANOS >= q * NANOS + NANOS;
    assert ts.sec == q;
  }

  /** `timeval_optval_base`. */
  class TimevalOption {
    var sec: int64
    var usec: int64

    constructor ()
      ensures sec == 0 && usec == 0
    {
      sec, usec := 0, 0;
    }

    /** `option`: the sub-second part is truncated to microseconds. */
    method Option(nanos: int64)
      modifies this
      ensures sec == TruncDiv(nanos, NANOS) && usec == TruncDiv(TruncRem(nanos, NANOS), 1000)
      ensures Fits(sec * 1_000_000) && Micros() == sec * 1_000_000 + usec == TruncDiv(nanos, 1000)
      ensures -1_000_000 < usec < 1_000_000 && (usec > 0 ==> sec >= 0) && (usec < 0 ==> sec <= 0)
    {
      var s := TruncDiv(nanos, NANOS);
      TimespecRoundTrip(nanos);
      sec := s;
      usec := TruncDiv(nanos - s * NANOS, 1000);
      MicrosTruncate(nanos);
    }

    /** `result`, in microseconds. */
    function Micros(): int
      reads this
    {
      sec * MICROS + usec
    }
  }

  /** Truncating the whole count to microseconds is truncating its parts: seconds first, then the rest. */
  lemma MicrosTruncate(nanos: int64)
    ensures var sec := TruncDiv(nanos, NANOS);
            && TruncDiv(nanos, 1000) == sec * MICROS + TruncDiv(TruncRem(nanos, NANOS), 1000)
            && Fits(sec * MICROS)
  {
    var n: int, sec, rem := nanos, TruncDiv(nanos, NANOS), TruncRem(nanos, NANOS);
    assert n == (sec * MICROS) * 1000 + rem;
    if n >= 0 {
      DivShift(sec * MICROS, rem, 1000);
    } else {
      DivShift(-sec * MICROS, -rem, 1000);
      assert -n == (-sec * MICROS) * 1000 + -rem;
    }
  }

  lemma DivShift(k: int, r: int, d: int)
    requires d == 1000 && r >= 0
    ensures (k * d + r) / d == k + r / d
  {
  }
}
