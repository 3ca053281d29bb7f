/**
  The running-time label of the control panel: the elapsed session time cut to
  whole seconds with Python's `int()`, split with `divmod` into hours, minutes
  and seconds, and printed as `HH:MM:SS` with each part zero-padded to width two.
 */
module Clock {
  import opened Options
  import opened Text

  /** Python's `int(x)` on a float: truncation toward zero. */
  function Truncate(x: real): (n: int)
    ensures x >= 0.0 ==> n >= 0 && n as real <= x < n as real + 1.0
    ensures x < 0.0 ==> n <= 0 && n as real - 1.0 < x <= n as real
  {
    if x >= 0.0 then x.Floor else -((-x).Floor)
  }

  /** Python's `divmod(a, b)` for a positive divisor: floor quotient and non-negative remainder. */
  function DivMod(a: int, b: int): (qr: (int, int))
    requires b > 0
    ensures qr.0 * b + qr.1 == a && 0 <= qr.1 < b
  {
    (a / b, a % b)
  }

  /** Elapsed seconds as (hours, minutes, seconds). */
  function Hms(elapsed: int): (hms: (int, int, int))
    ensures hms.0 * 3600 + hms.1 * 60 + hms.2 == elapsed
    ensures 0 <= hms.1 < 60 && 0 <= hms.2 < 60
    ensures elapsed >= 0 ==> hms.0 >= 0
  {
    var (hrs, rem) := DivMod(elapsed, 3600);
    var (mins, secs) := DivMod(rem, 60);
    (hrs, mins, secs)
  }

  /** Python's `f"{n:02}"`: at least two characters, zero-padded after any sign. */
  function Pad2(n: int): (s: string)
    ensures |s| >= 2
    ensures 0 <= n < 100 ==> |s| == 2
    ensures n >= 0 ==> AllDigits(s)
    ensures ParseInt(s) == n
  {
    if 0 <= n < 10 then
      ParseLeadingZero(Digits(n));
      ParseDigits(n);
      "0" + Digits(n)
    else
      ParseStr(n);
      assert 10 <= n < 100 ==> |Str(n)| == |Digits(n / 10)| + 1 == 2;
      Str(n)
  }

  const Prefix: string := "Running time: "

  /** The label shown while the instrument is OFF. */
  const Idle: string := Prefix + "0s"

  /** The label shown while the instrument is ON, `elapsed` seconds into the session. */
  function RunningTime(elapsed: int): (shown: string)
    ensures |shown| >= |Prefix| + 8 && shown[..|Prefix|] == Prefix
    ensures 0 <= elapsed < 360000 ==> |shown| == |Prefix| + 8
    ensures var hms := Hms(elapsed);
      Split(shown[|Prefix|..], ':') == [Pad2(hms.0), Pad2(hms.1), Pad2(hms.2)]
    ensures var p := Split(shown[|Prefix|..], ':');
      |p| == 3 && ParseInt(p[0]) == Hms(elapsed).0 && ParseInt(p[1]) == Hms(elapsed).1 && ParseInt(p[2]) == Hms(elapsed).2
  {
    var (hrs, mins, secs) := Hms(elapsed);
    var a, b, c := Pad2(hrs), Pad2(mins), Pad2(secs);
    Pad2Free(hrs);
    Pad2Free(mins);
    Pad2Free(secs);
    SplitLabel(Prefix + a + ":" + b + ":" + c, a, b, c);
    Prefix + a + ":" + b + ":" + c
  }

  /** Reads the elapsed seconds back off a running-time label. */
  function ReadElapsed(shown: string): Option<int> {
    if |shown| >= |Prefix| && shown[..|Prefix|] == Prefix then
      var parts := Split(shown[|Prefix|..], ':');
      if |parts| == 3 then
        Some(ParseInt(parts[0]) * 3600 + ParseInt(parts[1]) * 60 + ParseInt(parts[2]))
      else
        None
    else
      None
  }

  lemma Pad2Free(n: int)
    ensures Free(Pad2(n), ':')
  {
    var s := Pad2(n);
    if 0 <= n < 10 {
      DigitsFree(n, ':');
    } else {
      StrFree(n, ':');
    }
  }

  /** A label made of three colon-free fields splits back into exactly those fields. */
  lemma SplitLabel(shown: string, a: string, b: string, c: string)
    requires Free(a, ':') && Free(b, ':') && Free(c, ':')
    requires shown == Prefix + a + ":" + b + ":" + c
    ensures |shown| >= |Prefix| && shown[..|Prefix|] == Prefix
    ensures Split(shown[|Prefix|..], ':') == [a, b, c]
  {
    var parts := [a, b, c];
    var body := a + ":" + b + ":" + c;
    assert Join(parts, ':') == body by {
      assert parts[1..] == [b, c] && [b, c][1..] == [c];
      assert Join([b, c], ':') == b + [':'] + c;
      assert Join(parts, ':') == a + [':'] + (b + [':'] + c);
    }
    SplitJoin(parts, ':');
    assert shown == Prefix + body;
    assert shown[..|Prefix|] == Prefix && shown[|Prefix|..] == body;
  }

  /** The label names exactly the elapsed seconds it was made from. */
  lemma ReadRunningTime(elapsed: int)
    ensures ReadElapsed(RunningTime(elapsed)) == Some(elapsed)
  {
    var shown := RunningTime(elapsed);
    var p := Split(shown[|Prefix|..], ':');
    assert ParseInt(p[0]) * 3600 + ParseInt(p[1]) * 60 + ParseInt(p[2]) == elapsed;
  }

  /** 3725 seconds read as one hour, two minutes and five seconds. */
  lemma RunningTimeExample()
    ensures RunningTime(3725) == Prefix + "01:02:05"
  {
    assert Hms(3725) == (1, 2, 5);
    assert Digits(1) == "1" && Digits(2) == "2" && Digits(5) == "5";
    assert Pad2(1) == "01" && Pad2(2) == "02" && Pad2(5) == "05";
  }

  /** The idle label is not a running-time label: it names no elapsed time. */
  lemma IdleReadsNothing()
    ensures ReadElapsed(Idle) == None
  {
    var body := Idle[|Prefix|..];
    assert body == "0s";
    assert Split(body, ':') == ["0s"] by {
      SplitFree(body, ':');
    }
  }
}
