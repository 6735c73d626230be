/** The countdown to the end of voting: splitting the time left into days,
    hours, minutes and seconds, the sticky "expired" flag, and the two-digit
    padding used to show each field. */
module Countdown {

  /** The deadline, 2024-12-06T18:00:00Z, in milliseconds since the epoch. */
  const Deadline: int := 1733508000000

  const MsPerSecond: int := 1000
  const MsPerMinute: int := 60000
  const MsPerHour: int := 3600000
  const MsPerDay: int := 86400000

  datatype TimeLeft = TimeLeft(days: nat, hours: nat, minutes: nat, seconds: nat)

  const Zero: TimeLeft := TimeLeft(0, 0, 0, 0)

  /** `calculateTimeLeft`'s result for a difference of `difference` ms. The
      difference is whole milliseconds, so each floor of a quotient taken
      modulo a unit is integer division followed by remainder. */
  function TimeLeftOf(difference: int): (t: TimeLeft)
    ensures difference <= 0 ==> t == Zero
    ensures t.hours < 24 && t.minutes < 60 && t.seconds < 60
  {
    if difference <= 0 then Zero
    else TimeLeft(difference / MsPerDay, (difference / MsPerHour) % 24,
                  (difference / MsPerMinute) % 60, (difference / MsPerSecond) % 60)
  }

  /** The milliseconds a `TimeLeft` stands for. */
  function Millis(t: TimeLeft): int
  {
    t.days * MsPerDay + t.hours * MsPerHour + t.minutes * MsPerMinute + t.seconds * MsPerSecond
  }

  /** No time left shows as all zeros. Otherwise the days are the whole days
      left, hours, minutes and seconds stay below 24, 60 and 60, and together
      they account for the difference up to the last partial second. */
  lemma TimeLeftSplit(difference: int)
    ensures difference <= 0 ==> TimeLeftOf(difference) == Zero
    ensures difference > 0 ==>
      var t := TimeLeftOf(difference);
      t.days == difference / MsPerDay && t.hours < 24 && t.minutes < 60 && t.seconds < 60 &&
      Millis(t) <= difference < Millis(t) + MsPerSecond
  {
    if difference > 0 {
      var s := difference / MsPerSecond;
      var m := difference / MsPerMinute;
      var h := difference / MsPerHour;
      var d := difference / MsPerDay;
      assert m == s / 60;
      assert h == m / 60;
      assert d == h / 24;
      var t := TimeLeftOf(difference);
      calc {
        Millis(t);
        == ((d * 24 + h % 24) * 60 + m % 60) * MsPerMinute + (s % 60) * MsPerSecond;
        == (h * 60 + m % 60) * MsPerMinute + (s % 60) * MsPerSecond;
        == (m * 60 + s % 60) * MsPerSecond;
        == s * MsPerSecond;
      }
    }
  }

  /** A character '0'..'9'. */
  predicate IsDigit(c: char)
  {
    '0' <= c <= '9'
  }

  function DigitChar(d: nat): char
    requires d < 10
  {
    ('0' as int + d) as char
  }

  /** `n.toString()`: the decimal digits of `n`, most significant first,
      without leading zeros. */
  function Decimal(n: nat): (s: string)
    ensures |s| >= 1
    ensures forall i :: 0 <= i < |s| ==> IsDigit(s[i])
    ensures |s| > 1 ==> s[0] != '0'
  {
    if n < 10 then [DigitChar(n)] else Decimal(n / 10) + [DigitChar(n % 10)]
  }

  /** The number a string of digits denotes. */
  function DigitsValue(s: string): nat
    requires forall i :: 0 <= i < |s| ==> IsDigit(s[i])
  {
    if s == [] then 0
    else
      assert IsDigit(s[|s| - 1]);
      DigitsValue(s[..|s| - 1]) * 10 + (s[|s| - 1] as int - '0' as int)
  }

  /** Reading back the decimal string gives the number. */
  lemma {:induction false} DecimalRoundTrip(n: nat)
    ensures DigitsValue(Decimal(n)) == n
  {
    if n >= 10 {
      DecimalRoundTrip(n / 10);
      var s := Decimal(n);
      assert s[..|s| - 1] == Decimal(n / 10);
    }
  }

  /** The decimal string has one digit exactly for the numbers below 10, and
      two digits exactly for 10..99. */
  lemma {:induction false} DecimalLength(n: nat)
    ensures |Decimal(n)| == 1 <==> n < 10
    ensures |Decimal(n)| == 2 <==> 10 <= n < 100
  {
    if n >= 10 {
      DecimalLength(n / 10);
    }
  }

  /** `padNumber`: `n.toString().padStart(2, '0')`. */
  function PadNumber(n: nat): (p: string)
    ensures |p| >= 2
    ensures forall i :: 0 <= i < |p| ==> IsDigit(p[i])
  {
    var s := Decimal(n);
    if |s| < 2 then ['0'] + s else s
  }

  /** A padded number has at least two characters: one leading '0' before a
      single digit, the plain decimal string from 10 on, exactly two
      characters below 100, and it still reads as `n`. */
  lemma PadNumberShape(n: nat)
    ensures |PadNumber(n)| >= 2
    ensures n < 10 ==> PadNumber(n) == ['0', DigitChar(n)]
    ensures n >= 10 ==> PadNumber(n) == Decimal(n)
    ensures n < 100 ==> |PadNumber(n)| == 2
    ensures (forall i :: 0 <= i < |PadNumber(n)| ==> IsDigit(PadNumber(n)[i])) &&
      DigitsValue(PadNumber(n)) == n
  {
    DecimalLength(n);
    DecimalRoundTrip(n);
    if n < 10 {
      var p := PadNumber(n);
      assert p[..1] == ['0'];
    }
  }

  /** The countdown component's state. */
  class CountdownTimer {
    var timeLeft: TimeLeft
    var isExpired: bool

    constructor ()
      ensures timeLeft == Zero && !isExpired
    {
      timeLeft := Zero;
      isExpired := false;
    }

    /** `calculateTimeLeft` at wall-clock time `now` (ms since the epoch):
        raises the expired flag once the deadline has passed and never
        lowers it. */
    method CalculateTimeLeft(now: int) returns (t: TimeLeft)
      modifies this`isExpired
      ensures t == TimeLeftOf(Deadline - now)
      ensures isExpired == (old(isExpired) || Deadline - now <= 0)
    {
      var difference := Deadline - now;
      if difference <= 0 {
        isExpired := true;
        return Zero;
      }
      t := TimeLeft(difference / MsPerDay, (difference / MsPerHour) % 24,
                    (difference / MsPerMinute) % 60, (difference / MsPerSecond) % 60);
    }

    /** One tick of the one-second interval: the display is overwritten with
        the time left at `now`. */
    method Tick(now: int)
      modifies this
      ensures timeLeft == TimeLeftOf(Deadline - now)
      ensures isExpired == (old(isExpired) || Deadline - now <= 0)
      ensures old(isExpired) ==> isExpired
    {
      timeLeft := CalculateTimeLeft(now);
    }
  }
}
