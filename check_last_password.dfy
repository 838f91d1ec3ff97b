/**
 * `checkLastPassword`: what a sign-in with a password that fails against the current hash
 * is told. It never succeeds: the password is either not the previous one either, or it
 * is, and the reply says how long ago it was changed.
 */
module CheckLastPassword {
  import opened Wrappers
  import opened Errors
  import opened Users
  import opened Numerals
  import Argon

  const MsPerHour: nat := 3_600_000
  const MsPerDay: nat := 86_400_000

  const Changed: string := "You changed your password "

  /**
   * `now.diff(then, unit)` for a unit of fixed length: the elapsed milliseconds divided by
   * the unit, truncated toward zero (so a change in the future counts as zero or fewer
   * units, never as a positive number).
   */
  function WholeUnits(elapsedMs: int, unitMs: nat): (n: int)
    requires 0 < unitMs
    ensures n > 0 <==> elapsedMs >= unitMs
    ensures elapsedMs >= 0 ==> n * unitMs <= elapsedMs < (n + 1) * unitMs
    ensures elapsedMs < 0 ==> n <= 0
  {
    if elapsedMs >= 0 then
      PositiveQuotient(elapsedMs, unitMs);
      elapsedMs / unitMs
    else
      -((-elapsedMs) / unitMs)
  }

  /** The quotient counts whole divisors: it is positive exactly when `a` reaches `b`, and it is the floor. */
  lemma PositiveQuotient(a: nat, b: nat)
    requires 0 < b
    ensures a / b > 0 <==> a >= b
    ensures (a / b) * b <= a < (a / b + 1) * b
  {
    var q, r := a / b, a % b;
    assert a == q * b + r && 0 <= r < b;
    assert (q + 1) * b == q * b + b;
    if a >= b {
      assert (q + 1) * b > b;
    } else {
      assert q * b <= a < b;
    }
  }

  /**
   * `message + n + (n > 1 ? ' units ago' : ' unit ago')`: the prefix, the count in decimal,
   * the unit, plural for more than one, and "ago".
   */
  function Ago(n: nat, unit: string): (m: string)
    requires 0 < n
    ensures |Changed| < |m| && m[..|Changed|] == Changed
    ensures IsDigitOf(m[|Changed|], 10)
    ensures exists d :: (AllDigitsOf(d, 10) && FromDigits(d, 10) == n
                         && m == Changed + d + " " + unit + (if n > 1 then "s" else "") + " ago")
  {
    FromToDigits(n);
    var d := ToDigits(n);
    assert Changed + d + (if n > 1 then " " + unit + "s ago" else " " + unit + " ago")
        == Changed + d + " " + unit + (if n > 1 then "s" else "") + " ago";
    Changed + d + (if n > 1 then " " + unit + "s ago" else " " + unit + " ago")
  }

  /**
   * `checkLastPassword(credentials, password)` at `nowMs`. An empty `lastPassword`, or one
   * `password` does not verify against, is "Invalid credentials"; a `lastPassword` the
   * hashing library cannot parse makes it throw. Otherwise the reply names the elapsed
   * months (`months`, dayjs's calendar difference), else days, else hours, else "recently".
   */
  function CheckLastPassword(c: Credentials, password: string, months: int, nowMs: int): (f: Failure)
    ensures f.Http? ==> f.status == Unauthorized
    ensures !f.Http? ==> f == Argon.MalformedHash && 0 < |c.lastPassword| && !Argon.IsEncoded(c.lastPassword)
    ensures |c.lastPassword| == 0 || Argon.Verify(c.lastPassword, password) == Ok(false) <==> f == InvalidCredentials
  {
    if |c.lastPassword| == 0 then InvalidCredentials
    else
      match Argon.Verify(c.lastPassword, password)
      case Err(e) => e
      case Ok(false) => InvalidCredentials
      case Ok(true) =>
        var elapsedMs := nowMs - c.passwordUpdatedAt * 1000;
        var days := WholeUnits(elapsedMs, MsPerDay);
        var hours := WholeUnits(elapsedMs, MsPerHour);
        if months > 0 then Http(Unauthorized, Ago(months, "month"))
        else if days > 0 then Http(Unauthorized, Ago(days, "day"))
        else if hours > 0 then Http(Unauthorized, Ago(hours, "hour"))
        else Http(Unauthorized, Changed + "recently")
  }

  /** A number of units is never the word "recently", since it starts with a digit. */
  lemma AgoIsNotRecently(n: nat, unit: string)
    requires 0 < n
    ensures Ago(n, unit) != Changed + "recently"
  {
    var m := Ago(n, unit);
    assert (Changed + "recently")[|Changed|] == 'r';
    assert IsDigitOf(m[|Changed|], 10);
  }

  /** The singular unit appears exactly for one unit. */
  lemma AgoSingular(n: nat, unit: string)
    requires 0 < n
    ensures n == 1 <==> Ago(n, unit) == Changed + "1 " + unit + " ago"
  {
    var m := Ago(n, unit);
    var t := Changed + "1 " + unit + " ago";
    if n == 1 {
      assert ToDigits(1) == "1";
    } else if n < 10 {
      DigitRoundTrip(n);
      DigitRoundTrip(1);
      assert m[|Changed|] == DigitChar(n) != t[|Changed|];
    } else {
      TwoDigits(n);
      assert m[|Changed| + 1] == ToDigits(n)[1];
      assert IsDigitOf(ToDigits(n)[1], 10);
      assert m[|Changed| + 1] != t[|Changed| + 1];
    }
  }

  lemma TwoDigits(n: nat)
    requires 10 <= n
    ensures |ToDigits(n)| >= 2
  {
    assert ToDigits(n) == ToDigits(n / 10) + [DigitChar(n % 10)];
  }

  /**
   * A previous password that verifies is told "recently" exactly when no whole month
   * and no whole hour has gone by (a day is whole hours, so no day either).
   */
  lemma {:induction false} RecentlyExactly(c: Credentials, password: string, months: int, nowMs: int)
    requires 0 < |c.lastPassword| && Argon.Verify(c.lastPassword, password) == Ok(true)
    ensures CheckLastPassword(c, password, months, nowMs) == Http(Unauthorized, Changed + "recently")
        <==> months <= 0 && nowMs - c.passwordUpdatedAt * 1000 < MsPerHour
  {
    var elapsedMs := nowMs - c.passwordUpdatedAt * 1000;
    var days := WholeUnits(elapsedMs, MsPerDay);
    var hours := WholeUnits(elapsedMs, MsPerHour);
    if months > 0 {
      AgoIsNotRecently(months, "month");
    } else if days > 0 {
      AgoIsNotRecently(days, "day");
    } else if hours > 0 {
      AgoIsNotRecently(hours, "hour");
    }
  }

  /**
   * The cascade for a previous password that verifies, in terms of the elapsed time: whole
   * months win, then whole days, then whole hours.
   */
  lemma MessageCascade(c: Credentials, password: string, months: int, nowMs: int)
    requires 0 < |c.lastPassword| && Argon.Verify(c.lastPassword, password) == Ok(true)
    ensures months > 0 ==>
      CheckLastPassword(c, password, months, nowMs) == Http(Unauthorized, Ago(months, "month"))
    ensures var elapsedMs := nowMs - c.passwordUpdatedAt * 1000;
      months <= 0 && elapsedMs >= MsPerDay ==>
        CheckLastPassword(c, password, months, nowMs) == Http(Unauthorized, Ago(elapsedMs / MsPerDay, "day"))
    ensures var elapsedMs := nowMs - c.passwordUpdatedAt * 1000;
      months <= 0 && MsPerHour <= elapsedMs < MsPerDay ==>
        CheckLastPassword(c, password, months, nowMs) == Http(Unauthorized, Ago(elapsedMs / MsPerHour, "hour"))
  {
    var elapsedMs := nowMs - c.passwordUpdatedAt * 1000;
    if elapsedMs >= MsPerDay {
      PositiveQuotient(elapsedMs, MsPerDay);
    }
  }

  /**
   * The previous password is stored as given, not hashed, so a sign-in with anything but an
   * encoded-looking previous password makes the check throw instead of answering.
   */
  lemma PlainLastPasswordThrows(c: Credentials, password: string, months: int, nowMs: int)
    requires 0 < |c.lastPassword| && !Argon.IsEncoded(c.lastPassword)
    ensures CheckLastPassword(c, password, months, nowMs) == Argon.MalformedHash
  {
  }
}
