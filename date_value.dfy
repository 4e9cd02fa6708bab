/**
 * The part of JavaScript's Number and Date semantics that the default-day
 * scan depends on: a time value is a number of milliseconds or NaN, and
 * NaN poisons arithmetic, setMinutes and comparison.
 */
module DateValue {

  const MsPerMinute: int := 60000
  const MinutesPerHour: int := 60

  /** A JavaScript Number restricted to the integers, plus NaN. */
  datatype Num = Finite(v: int) | NaN

  /** The `+` operator on two numbers. */
  function Plus(a: Num, b: Num): Num
  {
    if a.NaN? || b.NaN? then NaN else Finite(a.v + b.v)
  }

  /**
   * The `<` operator: the abstract relational comparison is undefined when
   * either side is NaN, and `<` then yields false.
   */
  predicate LessThan(a: Num, b: Num) {
    a.Finite? && b.Finite? && a.v < b.v
  }

  /** MinFromTime: the minute of the hour of a time value (floored division). */
  function MinFromTime(t: int): (m: int)
    ensures 0 <= m < MinutesPerHour
  {
    (t / MsPerMinute) % MinutesPerHour
  }

  /** Date.prototype.getMinutes, with the local time zone taken as UTC. */
  function GetMinutes(t: Num): Num
  {
    if t.NaN? then NaN else Finite(MinFromTime(t.v))
  }

  /**
   * Date.prototype.setMinutes(min) (section 21.4.4.24 of ECMA-262), with the
   * local time zone taken as UTC: the minute field is replaced by `min`,
   * which may fall outside 0..59 and then carries into the hours; a NaN time
   * value or a NaN `min` (which is what a missing argument converts to)
   * gives NaN. The result is the new time value of the Date.
   */
  function SetMinutes(t: Num, min: Num): Num
  {
    if t.NaN? || min.NaN? then NaN
    else Finite(t.v - MinFromTime(t.v) * MsPerMinute + min.v * MsPerMinute)
  }

  /** Setting the minutes to the current minutes plus `d` moves the time `d` minutes on. */
  lemma SetMinutesAdvances(t: int, d: int)
    ensures SetMinutes(Finite(t), Plus(GetMinutes(Finite(t)), Finite(d))) == Finite(t + d * MsPerMinute)
  {
  }

  /**
   * Setting the minutes to an in-range `m` makes `m` the minute field and
   * leaves the fields around it alone: the hour count (and everything above
   * it) and the seconds and milliseconds within the minute.
   */
  lemma SetMinutesField(t: int, m: int)
    requires 0 <= m < MinutesPerHour
    ensures var r := SetMinutes(Finite(t), Finite(m));
      && r.Finite?
      && MinFromTime(r.v) == m
      && r.v / (MinutesPerHour * MsPerMinute) == t / (MinutesPerHour * MsPerMinute)
      && r.v % MsPerMinute == t % MsPerMinute
  {
    var q := t / MsPerMinute;
    var s := t % MsPerMinute;
    var h := q / MinutesPerHour;
    var r := SetMinutes(Finite(t), Finite(m));
    assert t == q * MsPerMinute + s;
    assert q == h * MinutesPerHour + q % MinutesPerHour;
    assert r.v == (h * MinutesPerHour + m) * MsPerMinute + s;
    assert r.v / MsPerMinute == h * MinutesPerHour + m;
    assert r.v % MsPerMinute == s;
    assert r.v == h * (MinutesPerHour * MsPerMinute) + (m * MsPerMinute + s);
    assert t == h * (MinutesPerHour * MsPerMinute) + ((q % MinutesPerHour) * MsPerMinute + s);
  }
}
