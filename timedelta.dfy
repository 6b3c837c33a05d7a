/**
 * Python's `str(timedelta)` for the elapsed time `mark_done` reports, and the
 * text it stores after cutting the fraction of a second off.
 *
 * Times are whole microseconds of naive local time. The constants are written
 * as literals (1_000_000 microseconds in a second, 86_400 seconds and
 * 86_400_000_000 microseconds in a day) so that the arithmetic stays linear.
 */
module Timedelta {
  import opened Wrappers
  import opened PyStr
  import opened PyInt

  /** `"%d:%02d:%02d" % (hh, mm, ss)` for the seconds-within-a-day part of a timedelta. */
  function ClockStr(secs: nat): string
    requires secs < 86_400
  {
    NatStr(secs / 3600) + (":" + (ZeroPad(secs / 60 % 60, 2) + (":" + ZeroPad(secs % 60, 2))))
  }

  /** The plural `s` of `"%d day%s"`, left off for 1 and -1. */
  function Plural(days: int): string {
    if days == 1 || days == -1 then "" else "s"
  }

  /** `"%d day%s, " % (days, plural) + text`, or just `text` when there are no whole days. */
  function WithDays(days: int, text: string): string {
    if days == 0 then text else IntStr(days) + (" day" + (Plural(days) + (", " + text)))
  }

  /** `"." + "%06d" % us` when there are microseconds, otherwise nothing. */
  function Fraction(micros: nat): string {
    if micros != 0 then "." + ZeroPad(micros, 6) else ""
  }

  /**
   * `str(timedelta(microseconds=us))`: the timedelta is normalised to days
   * (rounded down, so negative spans have negative days), seconds in [0, 86400)
   * and microseconds in [0, 10^6); the microseconds appear only when non-zero.
   */
  function TimedeltaStr(us: int): (r: string)
    ensures r != []
    ensures us < 0 ==> r[0] == '-'
    ensures us >= 0 ==> IsDigit(r[0])
  {
    var days := us / 86_400_000_000;
    var rest := us % 86_400_000_000;
    WithDays(days, ClockStr(rest / 1_000_000) + Fraction(rest % 1_000_000))
  }

  /** `str(now - timestamp).split('.')[0]`: the duration text `mark_done` stores. */
  function ElapsedText(us: int): (r: string)
    ensures '.' !in r
    ensures |r| <= |TimedeltaStr(us)| && r == TimedeltaStr(us)[..|r|]
  {
    BeforeFirst(TimedeltaStr(us), '.')
  }

  // What the stored text is.

  /** The stored text is never empty, and it is signed exactly when the span is negative. */
  lemma {:induction false} ElapsedTextSign(us: int)
    ensures ElapsedText(us) != []
    ensures ElapsedText(us)[0] == '-' <==> us < 0
  {
    var s := TimedeltaStr(us);
    assert s[0] != '.' by {
      if us >= 0 {
        assert IsDigit(s[0]);
      }
    }
    var r := ElapsedText(us);
    assert r[0] == s[0];
  }

  lemma {:induction false} DigitsHaveNoDot(s: string)
    requires AllDigits(s)
    ensures '.' !in s
  {
    forall i | 0 <= i < |s| ensures s[i] != '.' {
      assert IsDigit(s[i]);
    }
  }

  lemma {:induction false} ClockStrHasNoDot(secs: nat)
    requires secs < 86_400
    ensures '.' !in ClockStr(secs)
  {
    DigitsHaveNoDot(NatStr(secs / 3600));
    DigitsHaveNoDot(ZeroPad(secs / 60 % 60, 2));
    DigitsHaveNoDot(ZeroPad(secs % 60, 2));
  }

  lemma {:induction false} IntStrHasNoDot(n: int)
    ensures '.' !in IntStr(n)
  {
    var d := NatStr(if n < 0 then -n else n);
    DigitsHaveNoDot(d);
    if n < 0 {
      assert IntStr(n) == "-" + d;
    }
  }

  /** Cutting at the first `'.'` leaves the day count and clock reading and drops the fraction. */
  lemma {:induction false} WithDaysBeforeDot(days: int, c: string, f: string)
    requires '.' !in c
    requires f == [] || f[0] == '.'
    ensures BeforeFirst(WithDays(days, c + f), '.') == WithDays(days, c)
  {
    BeforeFirstOfPrefix(c, f, '.');
    if days != 0 {
      var p := Plural(days);
      BeforeFirstAppend(", ", c + f, '.');
      BeforeFirstAppend(p, ", " + (c + f), '.');
      BeforeFirstAppend(" day", p + (", " + (c + f)), '.');
      IntStrHasNoDot(days);
      BeforeFirstAppend(IntStr(days), " day" + (p + (", " + (c + f))), '.');
    }
  }

  /** The stored duration is the day count and clock reading of the elapsed time, without the fraction. */
  lemma {:induction false} ElapsedTextShape(us: int)
    ensures ElapsedText(us) == WithDays(us / 86_400_000_000, ClockStr(us % 86_400_000_000 / 1_000_000))
  {
    var rest := us % 86_400_000_000;
    ClockStrHasNoDot(rest / 1_000_000);
    WithDaysBeforeDot(us / 86_400_000_000, ClockStr(rest / 1_000_000), Fraction(rest % 1_000_000));
  }

  /** Dividing `us` and its whole-second truncation by a day gives the same days and seconds. */
  lemma {:induction false} TruncationKeepsParts(us: int)
    ensures var w := us / 1_000_000 * 1_000_000;
      && w / 86_400_000_000 == us / 86_400_000_000
      && w % 86_400_000_000 / 1_000_000 == us % 86_400_000_000 / 1_000_000
      && w % 86_400_000_000 % 1_000_000 == 0
  {
    var w := us / 1_000_000 * 1_000_000;
    var days := us / 86_400_000_000;
    var secs := us % 86_400_000_000 / 1_000_000;
    assert us == days * 86_400_000_000 + secs * 1_000_000 + us % 86_400_000_000 % 1_000_000;
    assert w == days * 86_400_000_000 + secs * 1_000_000;
  }

  /** A span with no microseconds prints as its day count and clock reading alone. */
  lemma {:induction false} WholeSpanText(w: int, days: int, secs: nat)
    requires w / 86_400_000_000 == days && w % 86_400_000_000 / 1_000_000 == secs
    requires w % 86_400_000_000 % 1_000_000 == 0
    ensures secs < 86_400
    ensures TimedeltaStr(w) == WithDays(days, ClockStr(secs))
  {
    assert ClockStr(secs) + Fraction(0) == ClockStr(secs);
  }

  /**
   * The stored duration is exactly what `str()` prints for the elapsed time
   * rounded down to whole seconds: the split drops the fraction and nothing else.
   */
  lemma {:induction false} ElapsedTextIsWholeSeconds(us: int)
    ensures ElapsedText(us) == TimedeltaStr(us / 1_000_000 * 1_000_000)
  {
    var w := us / 1_000_000 * 1_000_000;
    TruncationKeepsParts(us);
    WholeSpanText(w, us / 86_400_000_000, us % 86_400_000_000 / 1_000_000);
    ElapsedTextShape(us);
  }

  /** A task completed within a day of its timestamp shows just `H:MM:SS`. */
  lemma {:induction false} ElapsedTextWithinDay(us: int)
    requires 0 <= us < 86_400_000_000
    ensures ElapsedText(us) == ClockStr(us / 1_000_000)
  {
    ElapsedTextShape(us);
    assert us / 86_400_000_000 == 0 && us % 86_400_000_000 == us;
  }

  /**
   * A timestamp up to a day in the future (the clock went back) shows as
   * `-1 day, H:MM:SS`, counted forward from the day before.
   */
  lemma {:induction false} ElapsedTextNegative(us: int)
    requires -86_400_000_000 <= us < 0
    ensures ElapsedText(us) == "-1 day, " + ClockStr((us + 86_400_000_000) / 1_000_000)
  {
    ElapsedTextShape(us);
    assert us / 86_400_000_000 == -1 && us % 86_400_000_000 == us + 86_400_000_000;
    assert IntStr(-1) == "-1";
  }
}
