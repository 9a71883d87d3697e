/** The duration units `nanoseconds` ... `hours` and `duration_cast` into
    them. A unit is a period, the length of one tick in seconds as a
    `std::ratio`; the representation type is `long long` throughout. */
module Units {
  import opened CppInt

  /** A `std::ratio<num, den>`: one tick lasts num/den seconds. */
  datatype Ratio = Ratio(num: int, den: int)

  predicate IsPeriod(p: Ratio) { p.num > 0 && p.den > 0 }

  const Nanoseconds: Ratio := Ratio(1, 1_000_000_000)
  const Microseconds: Ratio := Ratio(1, 1_000_000)
  const Milliseconds: Ratio := Ratio(1, 1_000)
  const Seconds: Ratio := Ratio(1, 1)
  const Minutes: Ratio := Ratio(60, 1)
  const Hours: Ratio := Ratio(3600, 1)

  /** The tick of `high_resolution_clock`: one nanosecond in the standard
      libraries of GCC, Clang and MSVC. Clock readings in this model are
      counts of these ticks. */
  const ClockPeriod: Ratio := Nanoseconds

  /** The units the library names, from finest to coarsest. */
  const NamedUnits: seq<Ratio> := [Nanoseconds, Microseconds, Milliseconds, Seconds, Minutes, Hours]

  /** Rescaling `from` ticks into `to` ticks multiplies by
      CastNum(from, to) / CastDen(from, to). */
  function CastNum(from: Ratio, to: Ratio): (n: int)
    requires IsPeriod(from) && IsPeriod(to)
    ensures n > 0
  {
    from.num * to.den
  }

  function CastDen(from: Ratio, to: Ratio): (d: int)
    requires IsPeriod(from) && IsPeriod(to)
    ensures d > 0
  {
    from.den * to.num
  }

  /** `duration_cast` to an integer representation: `count` ticks of
      `from` are the exact rational number count * CastNum / CastDen of
      `to` ticks, and the result is that number truncated toward zero. */
  function DurationCast(count: int, from: Ratio, to: Ratio): (r: int)
    requires IsPeriod(from) && IsPeriod(to)
    ensures 0 <= count ==>
      0 <= r && count * CastNum(from, to) - CastDen(from, to) < r * CastDen(from, to) <= count * CastNum(from, to)
    ensures count < 0 ==>
      r <= 0 && count * CastNum(from, to) <= r * CastDen(from, to) < count * CastNum(from, to) + CastDen(from, to)
  {
    TruncDiv(count * CastNum(from, to), CastDen(from, to))
  }

  /** Every named unit is a positive period, each coarser than the one
      before it, and none is finer than the clock's tick. */
  lemma NamedUnitsArePeriods()
    ensures forall i :: 0 <= i < |NamedUnits| ==>
      IsPeriod(NamedUnits[i]) && CastNum(ClockPeriod, NamedUnits[i]) <= CastDen(ClockPeriod, NamedUnits[i])
    ensures forall i :: 0 < i < |NamedUnits| ==>
      NamedUnits[i - 1].num * NamedUnits[i].den < NamedUnits[i].num * NamedUnits[i - 1].den
  {
  }

  /** Conversions between the named units are the familiar factors, and an
      integer cast drops the fraction toward zero. */
  lemma CastExamples()
    ensures DurationCast(1_000_000_000, Nanoseconds, Seconds) == 1
    ensures DurationCast(1_999_999_999, Nanoseconds, Seconds) == 1
    ensures DurationCast(-1_500_000_000, Nanoseconds, Seconds) == -1
    ensures DurationCast(1, Seconds, Milliseconds) == 1_000
    ensures DurationCast(1, Hours, Minutes) == 60
    ensures DurationCast(59, Seconds, Minutes) == 0
    ensures DurationCast(7_200_000, Milliseconds, Hours) == 2
  {
  }

  /** A cast preserves the order of counts: a longer interval never
      converts to fewer ticks. */
  lemma CastMonotone(c1: int, c2: int, from: Ratio, to: Ratio)
    requires IsPeriod(from) && IsPeriod(to)
    requires c1 <= c2
    ensures DurationCast(c1, from, to) <= DurationCast(c2, from, to)
  {
    MulMonotone(c1, c2, CastNum(from, to));
    TruncDivMonotone(c1 * CastNum(from, to), c2 * CastNum(from, to), CastDen(from, to));
  }

  /** Casting into a unit no finer than the source unit never increases
      the magnitude, so a `long long` count stays a `long long` count. */
  lemma CastNoWider(c: int, from: Ratio, to: Ratio)
    requires IsPeriod(from) && IsPeriod(to)
    requires CastNum(from, to) <= CastDen(from, to)
    ensures 0 <= c ==> 0 <= DurationCast(c, from, to) <= c
    ensures c < 0 ==> c <= DurationCast(c, from, to) <= 0
    ensures IsInt64(c) ==> IsInt64(DurationCast(c, from, to))
  {
    var r, n, d := DurationCast(c, from, to), CastNum(from, to), CastDen(from, to);
    if 0 < c {
      MulMonotone(n, d, c);
      MulWithinCancel(r, c, d);
    } else if c < 0 {
      MulMonotone(n, d, -c);
      MulWithinCancel(c, r, d);
    }
  }

  /** Into nanoseconds the clock's count is taken as it is. */
  lemma CastToClockPeriodIsIdentity(c: int)
    ensures DurationCast(c, ClockPeriod, Nanoseconds) == c
  {
  }
}
