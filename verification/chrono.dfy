/**
  The clock of the C++ projection and its conversions.

  A time point counts 100-nanosecond ticks in a signed 64-bit integer from
  the FILETIME epoch, 1601-01-01 00:00:00 UTC. The clock converts a time
  point to and from
  - a `file_time`, the unsigned 64-bit raw timestamp with the same epoch
    and resolution (a reinterpretation of the bits);
  - a native FILETIME, the same value split into two 32-bit words;
  - a `time_t`, whole seconds since 1970-01-01 00:00:00 UTC.

  The source's arithmetic on `int64_t` is unchecked, and signed overflow
  is undefined behaviour in C++; the operations that could overflow
  therefore require that they do not.
 */
module Chrono {

  newtype int64 = x: int | -0x8000_0000_0000_0000 <= x < 0x8000_0000_0000_0000
  newtype uint64 = x: int | 0 <= x < 0x1_0000_0000_0000_0000
  newtype uint32 = x: int | 0 <= x < 0x1_0000_0000

  const TwoTo32: int := 0x1_0000_0000
  const TwoTo64: int := 0x1_0000_0000_0000_0000

  predicate InInt64(x: int) {
    -0x8000_0000_0000_0000 <= x < 0x8000_0000_0000_0000
  }

  /** One tick is 100 nanoseconds, so a second has 1e9 / 100 ticks. */
  const NanosPerTick: int := 100
  const NanosPerSecond: int := 1_000_000_000
  const TicksPerSecond: int := NanosPerSecond / NanosPerTick

  /** A clock time point: the count of its `time_since_epoch()` duration. */
  datatype TimePoint = TimePoint(ticks: int64)

  /** `file_time`: a raw unsigned timestamp. Its default constructor gives
      `FileTime(0)`; its explicit constructor is `FileTime(v)`. */
  datatype FileTime = FileTime(value: uint64)

  /** The native FILETIME structure: the low and the high 32-bit word. */
  datatype NativeFileTime = NativeFileTime(low: uint32, high: uint32)

  /** 1970-01-01 00:00:00 UTC in FILETIME ticks, the origin of `time_t`. */
  const TimeTEpochTicks: int64 := 0x019DB1DED53E8000
  const TimeTEpoch: TimePoint := TimePoint(TimeTEpochTicks)

  // ---------------------------------------------------------------------
  // file_time and FILETIME
  // ---------------------------------------------------------------------

  /** The FILETIME constructor of `file_time`. The source or-s the low word
      with the high word shifted 32 bits up in `uint64_t`; the two operands
      have no bit in common, so this is the sum written here (see
      `OrOfShiftedWordsIsSum`). */
  function FromNative(w: NativeFileTime): (f: FileTime)
    ensures f.value as int % TwoTo32 == w.low as int
    ensures f.value as int / TwoTo32 == w.high as int
  {
    FileTime((w.high as int * TwoTo32 + w.low as int) as uint64)
  }

  /** The FILETIME conversion operator of `file_time`. The source masks the
      value with 0xFFFFFFFF and shifts it 32 bits down, both on an unsigned
      value, which are the remainder and the quotient written here (see
      `MaskAndShiftAreModAndDiv`). */
  function ToNative(f: FileTime): (w: NativeFileTime)
    ensures w.high as int * TwoTo32 + w.low as int == f.value as int
  {
    NativeFileTime((f.value as int % TwoTo32) as uint32, (f.value as int / TwoTo32) as uint32)
  }

  /** Splitting a raw timestamp into words and joining them gives it back. */
  lemma JoinSplit(f: FileTime)
    ensures FromNative(ToNative(f)) == f
  {
  }

  /** Joining two words and splitting the result gives them back. */
  lemma SplitJoin(w: NativeFileTime)
    ensures ToNative(FromNative(w)) == w
  {
  }

  /** On 64-bit unsigned words, or-ing a 32-bit low word with a 32-bit high
      word shifted up is adding the high word times 2^32. */
  lemma OrOfShiftedWordsIsSum(low: bv64, high: bv64)
    requires low < 0x1_0000_0000 && high < 0x1_0000_0000
    ensures low | (high << 32) == high * 0x1_0000_0000 + low
  {
  }

  /** On 64-bit unsigned words, masking with 0xFFFFFFFF and shifting down
      by 32 are the remainder and quotient by 2^32. */
  lemma MaskAndShiftAreModAndDiv(v: bv64)
    ensures v & 0xFFFF_FFFF == v % 0x1_0000_0000
    ensures v >> 32 == v / 0x1_0000_0000
  {
  }

  // ---------------------------------------------------------------------
  // The clock: file_time conversions
  // ---------------------------------------------------------------------

  /** `to_file_time`: the tick count cast to `uint64_t`, which keeps its
      64 bits and so adds 2^64 to a negative count. */
  function ToFileTime(t: TimePoint): (f: FileTime)
    ensures (f.value as int - t.ticks as int) % TwoTo64 == 0
    ensures t.ticks >= 0 ==> f.value as int == t.ticks as int
  {
    if t.ticks >= 0 then FileTime(t.ticks as int as uint64)
    else FileTime((t.ticks as int + TwoTo64) as uint64)
  }

  /** `from_file_time`: the raw value taken as the `int64_t` tick count,
      keeping its 64 bits, so a value at or above 2^63 becomes negative. */
  function FromFileTime(f: FileTime): (t: TimePoint)
    ensures (t.ticks as int - f.value as int) % TwoTo64 == 0
    ensures f.value as int < TwoTo64 / 2 ==> t.ticks as int == f.value as int
  {
    if f.value as int < TwoTo64 / 2 then TimePoint(f.value as int as int64)
    else TimePoint((f.value as int - TwoTo64) as int64)
  }

  /** A raw timestamp survives the trip through a time point bit for bit. */
  lemma FileTimeRoundTrip(f: FileTime)
    ensures ToFileTime(FromFileTime(f)) == f
  {
  }

  /** A time point survives the trip through a raw timestamp bit for bit. */
  lemma TimePointRoundTrip(t: TimePoint)
    ensures FromFileTime(ToFileTime(t)) == t
  {
  }

  /** `to_FILETIME`: the same reinterpretation as `to_file_time`; the
      raw value converts back to the time point it came from. */
  function ToFILETIME(t: TimePoint): (f: FileTime)
    ensures (f.value as int - t.ticks as int) % TwoTo64 == 0
    ensures t.ticks >= 0 ==> f.value as int == t.ticks as int
    ensures FromFileTime(f) == t
  {
    TimePointRoundTrip(t);
    ToFileTime(t)
  }

  /** `from_FILETIME`: the same reinterpretation as `from_file_time`; the
      time point converts back to the raw value it came from. */
  function FromFILETIME(f: FileTime): (t: TimePoint)
    ensures (t.ticks as int - f.value as int) % TwoTo64 == 0
    ensures f.value as int < TwoTo64 / 2 ==> t.ticks as int == f.value as int
    ensures ToFileTime(t) == f
  {
    FileTimeRoundTrip(f);
    FromFileTime(f)
  }

  /** `to_FILETIME` and `from_FILETIME` are inverse to each other. */
  lemma FILETIMERoundTrips(t: TimePoint, f: FileTime)
    ensures FromFILETIME(ToFILETIME(t)) == t
    ensures ToFILETIME(FromFILETIME(f)) == f
  {
  }

  /** `now`: the host's current system time, which the source reads from
      the operating system, is a parameter here; the clock returns it as a
      time point unchanged. */
  function Now(hostTime: FileTime): (t: TimePoint)
    ensures ToFileTime(t) == hostTime
  {
    FileTimeRoundTrip(hostTime);
    FromFileTime(hostTime)
  }

  // ---------------------------------------------------------------------
  // The clock: time_t conversions
  // ---------------------------------------------------------------------

  /** `duration_cast` of a tick count to whole seconds: a C++ integer
      division by ten million, which truncates toward zero (Dafny's `/`
      rounds a negative dividend toward negative infinity instead). */
  function TicksToSeconds(d: int): (s: int)
    ensures d >= 0 ==> 0 <= s * TicksPerSecond <= d < (s + 1) * TicksPerSecond
    ensures d < 0 ==> (s - 1) * TicksPerSecond < d <= s * TicksPerSecond <= 0
  {
    assert TicksPerSecond == 10_000_000;
    if d >= 0 then d / TicksPerSecond else -((-d) / TicksPerSecond)
  }

  /** Whether `time - time_t_epoch` is representable, which `to_time_t`
      needs. */
  predicate HasTimeT(t: TimePoint) {
    InInt64(t.ticks as int - TimeTEpochTicks as int)
  }

  /** `to_time_t`: the ticks since 1970, cast to whole seconds, which
      truncates toward zero, so a time before 1970 rounds up to the next
      whole second. */
  function ToTimeT(t: TimePoint): (s: int64)
    requires HasTimeT(t)
    ensures var d := t.ticks as int - TimeTEpochTicks as int;
      (d >= 0 ==> s >= 0 && s as int * TicksPerSecond <= d < (s as int + 1) * TicksPerSecond) &&
      (d < 0 ==> s <= 0 && (s as int - 1) * TicksPerSecond < d <= s as int * TicksPerSecond)
  {
    var d := t.ticks as int - TimeTEpochTicks as int;
    TicksToSeconds(d) as int64
  }

  /** Whether `time_t_epoch + seconds(s)` is representable: the seconds
      converted to ticks, and their sum with the epoch, fit `int64_t`. */
  predicate HasTimePoint(s: int64) {
    InInt64(s as int * TicksPerSecond) && InInt64(TimeTEpochTicks as int + s as int * TicksPerSecond)
  }

  /** `from_time_t`: the time point `s` whole seconds after 1970. */
  function FromTimeT(s: int64): (t: TimePoint)
    requires HasTimePoint(s)
    ensures HasTimeT(t)
    ensures (t.ticks as int - TimeTEpochTicks as int) % TicksPerSecond == 0
    ensures (t.ticks as int - TimeTEpochTicks as int) / TicksPerSecond == s as int
  {
    WholeSeconds(s as int);
    TimePoint((TimeTEpochTicks as int + s as int * TicksPerSecond) as int64)
  }

  /** A whole number of seconds is a whole number of ticks. */
  lemma WholeSeconds(s: int)
    ensures (s * TicksPerSecond) % TicksPerSecond == 0
    ensures (s * TicksPerSecond) / TicksPerSecond == s
  {
    assert TicksPerSecond == 10_000_000;
    assert (s * 10_000_000) % 10_000_000 == 0;
    assert (s * 10_000_000) / 10_000_000 == s;
  }

  /** `from_time_t(0)` is the `time_t` epoch, 116444736000000000 ticks. */
  lemma FromTimeTZero()
    ensures HasTimePoint(0) && FromTimeT(0) == TimeTEpoch
    ensures TimeTEpoch.ticks as int == 116_444_736_000_000_000
  {
  }

  /** Converting whole seconds to a time point and back loses nothing. */
  lemma TimeTRoundTrip(s: int64)
    requires HasTimePoint(s)
    ensures ToTimeT(FromTimeT(s)) == s
  {
  }

  /** A time point at or after 1970 lies in the second `to_time_t` names:
      at or after its start and before the start of the next one. A time
      point before 1970 lies after the start of the previous second and
      at or before the start of the one named, so it rounds toward 1970. */
  lemma ToTimeTTruncates(t: TimePoint)
    requires HasTimeT(t)
    ensures HasTimePoint(ToTimeT(t))
    ensures t.ticks >= TimeTEpochTicks ==>
      FromTimeT(ToTimeT(t)).ticks <= t.ticks &&
      t.ticks as int < FromTimeT(ToTimeT(t)).ticks as int + TicksPerSecond
    ensures t.ticks < TimeTEpochTicks ==>
      t.ticks <= FromTimeT(ToTimeT(t)).ticks &&
      FromTimeT(ToTimeT(t)).ticks as int - TicksPerSecond < t.ticks as int
  {
  }
}
