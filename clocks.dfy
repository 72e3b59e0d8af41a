/** The part of Python's `datetime` that `convert` uses, on whole minutes.
    A naive `datetime` is a count of minutes since 0001-01-01 00:00, the start
    of a Monday; an aware one is the same count taken in UTC. */
module Clocks {

  const MINUTES_PER_HOUR := 60
  const MINUTES_PER_DAY := 1440
  const MINUTES_PER_WEEK := 10080

  /** `datetime.timezone(timedelta(minutes = minutes))` */
  datatype Zone = FixedOffset(minutes: int)

  /** An aware `datetime`, held as its UTC reading in minutes. */
  datatype Instant = Instant(utcMinutes: int)

  /** `naive.replace(tzinfo=z)`: the wall-clock reading `naive` taken in `z`. */
  function Attach(naive: int, z: Zone): Instant {
    Instant(naive - z.minutes)
  }

  /** The wall-clock reading of `dt.astimezone(z)`, in minutes. */
  function LocalIn(dt: Instant, z: Zone): int {
    dt.utcMinutes + z.minutes
  }

  /** What `strftime('%A at %H:%M')` shows: the weekday (0 = Monday), the
      hour and the minute. */
  datatype Clock = Clock(weekday: nat, hour: nat, minute: nat)

  /** Minutes since the start of the week that a clock shows. */
  function WeekMinutes(c: Clock): int {
    c.weekday * MINUTES_PER_DAY + c.hour * MINUTES_PER_HOUR + c.minute
  }

  /** The clock shown for a wall-clock reading of `local` minutes. */
  function ClockAt(local: int): (c: Clock)
    ensures c.weekday < 7 && c.hour < 24 && c.minute < 60
    ensures WeekMinutes(c) == local % MINUTES_PER_WEEK
  {
    var day := local / MINUTES_PER_DAY;
    var m := local % MINUTES_PER_DAY;
    var c := Clock(day % 7, m / MINUTES_PER_HOUR, m % MINUTES_PER_HOUR);
    WeekSplit(local, day, m);
    c
  }

  lemma WeekSplit(local: int, day: int, m: int)
    requires day == local / MINUTES_PER_DAY && m == local % MINUTES_PER_DAY
    ensures (day % 7) * MINUTES_PER_DAY + (m / 60) * 60 + m % 60 == local % MINUTES_PER_WEEK
  {
    var w := day / 7;
    assert day == 7 * w + day % 7;
    assert local == MINUTES_PER_DAY * day + m;
    assert local == MINUTES_PER_WEEK * w + ((day % 7) * MINUTES_PER_DAY + m);
    assert 0 <= (day % 7) * MINUTES_PER_DAY + m < MINUTES_PER_WEEK;
    ModUnique(local, MINUTES_PER_WEEK, w, (day % 7) * MINUTES_PER_DAY + m);
  }

  lemma ModUnique(a: int, n: int, q: int, r: int)
    requires n > 0 && a == n * q + r && 0 <= r < n
    ensures a % n == r
  {
    var q', r' := a / n, a % n;
    var d := q' - q;
    assert n * q' == n * q + n * d;
    assert n * d == r - r';
    if d > 0 {
      MulAtLeast(n, d);
    } else if d < 0 {
      MulAtLeast(n, -d);
    }
  }

  lemma {:induction false} MulAtLeast(n: int, d: int)
    requires n > 0 && d > 0
    ensures n * d >= n
  {
    if d > 1 {
      MulAtLeast(n, d - 1);
      assert n * d == n * (d - 1) + n;
    }
  }

  /** Moving a wall-clock reading by `delta` minutes moves the shown clock
      by `delta` minutes around the week, across midnight and across the
      end of the week alike. */
  lemma {:induction false} ClockShift(local: int, delta: int)
    ensures WeekMinutes(ClockAt(local + delta)) == (WeekMinutes(ClockAt(local)) + delta) % MINUTES_PER_WEEK
  {
    var w := local / MINUTES_PER_WEEK;
    var r := local % MINUTES_PER_WEEK;
    var q := (r + delta) / MINUTES_PER_WEEK;
    var s := (r + delta) % MINUTES_PER_WEEK;
    assert local + delta == MINUTES_PER_WEEK * (w + q) + s;
    ModUnique(local + delta, MINUTES_PER_WEEK, w + q, s);
  }
}
