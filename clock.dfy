/** Wall-clock trace timestamps (HH:MM:SS) and operator-entered stage finish
    times (MM:SS). Both are parsed onto the same default day, so a finish time
    compares as a time of day within the first hour. */
module Clock {

  /** A time of day as parsed from a trace timestamp. */
  datatype ClockTime = ClockTime(hour: nat, minute: nat, second: nat)

  /** A stage finish time as entered by the operator: minutes and seconds. */
  datatype FinishTime = FinishTime(minute: nat, second: nat)

  /** The ranges the HH:MM:SS format accepts. */
  predicate ValidClock(c: ClockTime) {
    c.hour < 24 && c.minute < 60 && c.second < 60
  }

  /** The ranges the MM:SS format accepts. */
  predicate ValidFinish(f: FinishTime) {
    f.minute < 60 && f.second < 60
  }

  /** A finish time parsed without an hour lands at hour 0 of the same day. */
  function FinishAsClock(f: FinishTime): ClockTime {
    ClockTime(0, f.minute, f.second)
  }

  /** Ordering of two times of day on the same date: field by field, hour first. */
  predicate Earlier(a: ClockTime, b: ClockTime) {
    a.hour < b.hour
    || (a.hour == b.hour && a.minute < b.minute)
    || (a.hour == b.hour && a.minute == b.minute && a.second < b.second)
  }

  predicate EarlierOrSame(a: ClockTime, b: ClockTime) {
    Earlier(a, b) || a == b
  }

  /** Seconds since midnight. */
  function Seconds(c: ClockTime): nat {
    c.hour * 3600 + c.minute * 60 + c.second
  }

  function FinishSeconds(f: FinishTime): nat {
    Seconds(FinishAsClock(f))
  }

  /** Seconds since midnight is an exact encoding of a valid time of day. */
  lemma SecondsBounds(c: ClockTime)
    requires ValidClock(c)
    ensures c.hour * 3600 <= Seconds(c) < c.hour * 3600 + 3600
    ensures Seconds(c) < 86400
  {
  }

  /** Comparing two parsed times equals comparing their seconds since midnight,
      so the model may compare plain numbers of seconds. */
  lemma EarlierIffFewerSeconds(a: ClockTime, b: ClockTime)
    requires ValidClock(a) && ValidClock(b)
    ensures Earlier(a, b) <==> Seconds(a) < Seconds(b)
    ensures EarlierOrSame(a, b) <==> Seconds(a) <= Seconds(b)
  {
    SecondsBounds(a);
    SecondsBounds(b);
    if a.hour < b.hour {
      assert a.hour * 3600 + 3600 <= b.hour * 3600;
    } else if a.hour > b.hour {
      assert b.hour * 3600 + 3600 <= a.hour * 3600;
    } else if a.minute < b.minute {
      assert a.minute * 60 + 60 <= b.minute * 60;
    } else if a.minute > b.minute {
      assert b.minute * 60 + 60 <= a.minute * 60;
    }
  }

  /** Every finish time lies in the first hour of the day. */
  lemma FinishWithinFirstHour(f: FinishTime)
    requires ValidFinish(f)
    ensures ValidClock(FinishAsClock(f))
    ensures FinishSeconds(f) < 3600
  {
  }

  /** A trace timestamp at or after 01:00:00 is never earlier than any finish
      time: such samples always fail the end-of-test comparison. */
  lemma LateTimestampNeverBeforeFinish(c: ClockTime, f: FinishTime)
    requires ValidClock(c) && ValidFinish(f)
    requires Seconds(c) >= 3600
    ensures !Earlier(c, FinishAsClock(f))
  {
    FinishWithinFirstHour(f);
    EarlierIffFewerSeconds(c, FinishAsClock(f));
  }
}
