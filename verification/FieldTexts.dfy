/**
 What the fields of a log line say: every number is read back from its text,
 every name tells what it stands for, and the time of a message is recovered
 from the fields that print its parts.
 */
module FieldTexts {
  import opened Padding
  import opened LogFields
  import opened PatternGrammar

  // ------------------------------------------------------------------- numbers

  /** Digits, behind a minus or not. */
  predicate IsNumber(s: string) {
    s != "" && (if s[0] == '-' then |s| > 1 && AllDigits(s[1..]) else AllDigits(s))
  }

  /** The number a text is read as. */
  function NumberOf(s: string): int
    requires IsNumber(s)
  {
    if s[0] == '-' then -(Value(s[1..]) as int) else Value(s)
  }

  predicate Reads(s: string, n: int) {
    IsNumber(s) && NumberOf(s) == n
  }

  lemma IntTextReads(n: int)
    ensures Reads(IntText(n), n)
  {
    ValueOfDecimal(if n < 0 then -n else n);
    if n < 0 {
      assert ("-" + Decimal(-n))[1..] == Decimal(-n);
    }
  }

  lemma OneDigit(d: nat)
    requires d < 10
    ensures AllDigits([Digit(d)]) && Value([Digit(d)]) == d
  {
    assert [Digit(d)][..0] == "";
  }

  lemma DigitBehind(s: string, d: nat)
    requires AllDigits(s) && d < 10
    ensures AllDigits(s + [Digit(d)]) && Value(s + [Digit(d)]) == 10 * Value(s) + d
  {
    assert (s + [Digit(d)])[..|s|] == s;
  }

  lemma Pad2Reads(n: int)
    ensures Reads(Pad2(n), n)
    ensures 0 <= n < 100 ==> |Pad2(n)| == 2
  {
    if 0 <= n < 100 {
      OneDigit(n / 10);
      DigitBehind([Digit(n / 10)], n % 10);
      assert Pad2(n) == [Digit(n / 10)] + [Digit(n % 10)];
    } else {
      IntTextReads(n);
    }
  }

  lemma Pad3Reads(n: nat)
    ensures Reads(Pad3(n), n)
  {
    if n < 1000 {
      OneDigit(n / 100);
      DigitBehind([Digit(n / 100)], n / 10 % 10);
      DigitBehind([Digit(n / 100)] + [Digit(n / 10 % 10)], n % 10);
      assert Pad3(n) == [Digit(n / 100)] + [Digit(n / 10 % 10)] + [Digit(n % 10)];
    } else {
      IntTextReads(n);
    }
  }

  lemma {:induction false} LeadingZeros(k: nat, s: string)
    requires AllDigits(s)
    ensures AllDigits(Zeros(k) + s) && Value(Zeros(k) + s) == Value(s)
    decreases |s|, k
  {
    if s == "" {
      if k > 0 {
        LeadingZeros(k - 1, "");
        assert Zeros(k) + "" == Zeros(k - 1) + "" + [Digit(0)];
        DigitBehind(Zeros(k - 1) + "", 0);
      }
    } else {
      var t := s[..|s| - 1];
      LeadingZeros(k, t);
      assert (Zeros(k) + s)[..k + |s| - 1] == Zeros(k) + t;
    }
  }

  lemma PadUintReads(n: nat, width: nat)
    ensures Reads(PadUint(n, width), n)
  {
    ValueOfDecimal(n);
    var s, digits := PadUint(n, width), |Decimal(n)|;
    if digits < width { LeadingZeros(width - digits, Decimal(n)); } else { assert s == Decimal(n); }
    assert IsDigit(s[0]);
  }

  // ------------------------------------------------------------- the time fields

  /** The fields of one number say the part of the time they are for, at any time. */
  lemma TimeFieldsRead(tm: Tm)
    ensures Reads(TimeText('H', tm), tm.hour) && Reads(TimeText('M', tm), tm.min) && Reads(TimeText('S', tm), tm.sec)
    ensures Reads(TimeText('d', tm), tm.mday) && Reads(TimeText('m', tm), tm.mon + 1)
    ensures Reads(TimeText('Y', tm), tm.year + 1900)
  {
    hide Pad2, IntText;
    Pad2Reads(tm.hour);
    Pad2Reads(tm.min);
    Pad2Reads(tm.sec);
    Pad2Reads(tm.mday);
    Pad2Reads(tm.mon + 1);
    IntTextReads(tm.year + 1900);
  }

  /** The two-digit year is the year up to its century, on the side of 1900 the year is on. */
  lemma ShortYearReads(tm: Tm)
    ensures exists n :: Reads(TimeText('C', tm), n) && -100 < n < 100 && (tm.year - n) % 100 == 0 &&
                        (tm.year >= 0 ==> n >= 0) && (tm.year <= 0 ==> n <= 0)
  {
    var n := Rem100(tm.year);
    Pad2Reads(n);
    RemBounds(tm.year);
    RemParts(tm.year);
    assert Reads(TimeText('C', tm), n);
  }

  lemma RemParts(n: int)
    ensures (n - Rem100(n)) % 100 == 0 && (n >= 0 ==> Rem100(n) >= 0) && (n <= 0 ==> Rem100(n) <= 0)
  {
    assert n - Rem100(n) == 100 * TruncDiv(n, 100);
  }

  /** The hour is recovered from the twelve-hour clock and its half of the day. */
  lemma HourRecovered(tm: Tm)
    requires 0 <= tm.hour < 24
    ensures exists n :: Reads(TimeText('I', tm), n) &&
                        tm.hour == if TimeText('p', tm) == "PM" && n != 12 then n + 12 else n
    ensures TimeText('p', tm) in {"AM", "PM"}
  {
    Pad2Reads(To12h(tm));
    assert Reads(TimeText('I', tm), To12h(tm));
  }

  /** The hours of the twelve-hour clock are 1 to 12, but for the one after midnight, which prints as 00. */
  lemma TwelveHoursExactly(tm: Tm)
    requires 0 <= tm.hour < 24
    ensures (exists n :: Reads(TimeText('I', tm), n) && 1 <= n <= 12) <==> tm.hour != 0
    ensures tm.hour == 0 ==> TimeText('I', tm) == "00"
  {
    Pad2Reads(To12h(tm));
    assert Reads(TimeText('I', tm), To12h(tm));
  }

  predicate StartsWith(s: string, t: string) {
    |t| <= |s| && s[..|t|] == t
  }

  /** The names of weekdays tell them, and the short names begin the full ones. */
  lemma WeekdaysTell(tm: Tm, tm': Tm)
    ensures TimeText('a', tm) == TimeText('a', tm') <==> tm.wday == tm'.wday
    ensures TimeText('A', tm) == TimeText('A', tm') <==> tm.wday == tm'.wday
    ensures StartsWith(TimeText('A', tm), TimeText('a', tm))
  {}

  /** So do the names of months. */
  lemma MonthsTell(tm: Tm, tm': Tm)
    ensures TimeText('b', tm) == TimeText('b', tm') <==> tm.mon == tm'.mon
    ensures TimeText('B', tm) == TimeText('B', tm') <==> tm.mon == tm'.mon
    ensures StartsWith(TimeText('B', tm), TimeText('b', tm)) && TimeText('h', tm) == TimeText('b', tm)
  {
    ShortMonths(tm.mon, tm'.mon);
    FullMonths(tm.mon, tm'.mon);
  }

  lemma ShortMonths(m: Month, n: Month)
    ensures MONTHS[m] == MONTHS[n] <==> m == n
  {}

  lemma FullMonths(m: Month, n: Month)
    ensures FULL_MONTHS[m] == FULL_MONTHS[n] <==> m == n
    ensures StartsWith(FULL_MONTHS[m], MONTHS[m])
  {}

  /** The texts the comments of the code give as examples; but the half of the day is in capitals. */
  lemma ExampleTexts()
    ensures TimeText('c', Tm(46, 35, 15, 23, 7, 114, 4)) == "Thu Aug 23 15:35:46 2014"
    ensures TimeText('D', Tm(46, 35, 15, 23, 7, 101, 4)) == "08/23/01"
    ensures TimeText('r', Tm(2, 55, 14, 23, 7, 101, 4)) == "02:55:02 PM"
  {
    ExampleDate();
    ExampleShortDate();
    ExampleTime();
  }

  lemma ExampleDate()
    ensures TimeText('c', Tm(46, 35, 15, 23, 7, 114, 4)) == "Thu Aug 23 15:35:46 2014"
  {
    hide TimeText, Clock, IntText;
    ExampleClock();
    ExampleNumbers();
    ExampleParts(Tm(46, 35, 15, 23, 7, 114, 4), "Thu", "Aug", "23", "15:35:46", "2014");
    ExampleJoined();
  }

  lemma ExampleJoined()
    ensures "Thu" + " " + "Aug" + " " + ("23" + " " + "15:35:46" + " " + "2014") == "Thu Aug 23 15:35:46 2014"
  {
    assert "Thu" + " " + "Aug" == "Thu Aug" && "23" + " " + "15:35:46" + " " + "2014" == "23 15:35:46 2014";
  }

  lemma ExampleParts(tm: Tm, day: string, month: string, mday: string, clock: string, year: string)
    requires DAYS[tm.wday] == day && MONTHS[tm.mon] == month && IntText(tm.mday) == mday
    requires Clock(tm.hour, tm) == clock && IntText(tm.year + 1900) == year
    ensures TimeText('c', tm) == day + " " + month + " " + (mday + " " + clock + " " + year)
  {
    hide IntText, Clock;
    assert day + " " + month + " " + mday + " " + clock + " " + year ==
           day + " " + month + " " + (mday + " " + clock + " " + year);
  }

  lemma ExampleClock()
    ensures Clock(15, Tm(46, 35, 15, 23, 7, 114, 4)) == "15:35:46"
  {
    ExampleNumbers();
    hide Pad2;
  }

  lemma ExampleShortDate()
    ensures TimeText('D', Tm(46, 35, 15, 23, 7, 101, 4)) == "08/23/01"
  {
    ExampleNumbers();
    hide Pad2, IntText, Decimal;
  }

  lemma ExampleTime()
    ensures TimeText('r', Tm(2, 55, 14, 23, 7, 101, 4)) == "02:55:02 PM"
  {
    ExampleNumbers();
    hide Pad2, IntText, Decimal;
  }

  lemma ExampleNumbers()
    ensures IntText(23) == "23" && IntText(2014) == "2014"
    ensures Pad2(15) == "15" && Pad2(35) == "35" && Pad2(46) == "46" && Pad2(8) == "08" && Pad2(23) == "23"
    ensures Pad2(1) == "01" && Pad2(2) == "02" && Pad2(55) == "55"
  {
    assert Decimal(201) == Decimal(20) + "1" && Decimal(20) == "2" + "0" && Decimal(23) == "2" + "3";
    assert Decimal(2014) == Decimal(201) + "4";
  }

  // ------------------------------------------------------------- the other fields

  /** The fields that print a number of the message or the process say that number. */
  lemma PlainFieldsRead(env: Env, msg: Msg)
    ensures Reads(PlainText('t', env, msg), msg.threadId) && Reads(PlainText('P', env, msg), env.pid)
    ensures Reads(PlainText('E', env, msg), Secs(msg.time))
    ensures msg.source.line != 0 ==> Reads(PlainText('#', env, msg), msg.source.line)
  {
    hide IntText, Decimal, Secs;
    IntTextReads(msg.threadId);
    IntTextReads(env.pid);
    IntTextReads(Secs(msg.time));
    IntTextReads(msg.source.line);
    assert IntText(msg.threadId) == Decimal(msg.threadId) && IntText(env.pid) == Decimal(env.pid) by {
      NotNegative(msg.threadId);
      NotNegative(env.pid);
    }
  }

  lemma NotNegative(n: nat)
    ensures IntText(n) == Decimal(n)
  {}

  /** The fractions are the parts of the second that are left behind the seconds, in their units. */
  lemma FractionsRead(env: Env, msg: Msg)
    ensures Reads(PlainText('e', env, msg), Fraction(msg.time, 1_000_000) % 0x1_0000_0000)
    ensures Reads(PlainText('f', env, msg), Fraction(msg.time, 1_000) % 0x1_0000_0000_0000_0000)
    ensures Reads(PlainText('F', env, msg), Fraction(msg.time, 1) % 0x1_0000_0000_0000_0000)
  {
    hide Pad3, PadUint, Fraction;
    Pad3Reads(Fraction(msg.time, 1_000_000) % 0x1_0000_0000);
    PadUintReads(Fraction(msg.time, 1_000) % 0x1_0000_0000_0000_0000, 6);
    PadUintReads(Fraction(msg.time, 1) % 0x1_0000_0000_0000_0000, 9);
  }

  /** From the epoch on, seconds and nanoseconds are the parts of the time, and the coarser fractions cut it. */
  lemma TimeRecovered(env: Env, msg: Msg)
    requires msg.time >= 0
    ensures Reads(PlainText('E', env, msg), msg.time / 1_000_000_000)
    ensures Reads(PlainText('F', env, msg), msg.time % 1_000_000_000)
    ensures Reads(PlainText('f', env, msg), msg.time % 1_000_000_000 / 1_000)
    ensures Reads(PlainText('e', env, msg), msg.time % 1_000_000_000 / 1_000_000)
  {
    PlainFieldsRead(env, msg);
    FractionsRead(env, msg);
    hide PlainText, Reads, Fraction, Secs;
    FractionParts(msg.time);
  }

  lemma FractionParts(time: int)
    requires time >= 0
    ensures Secs(time) == time / 1_000_000_000 && Fraction(time, 1) == time % 1_000_000_000
    ensures Fraction(time, 1_000) == time % 1_000_000_000 / 1_000
    ensures Fraction(time, 1_000_000) == time % 1_000_000_000 / 1_000_000
  {
    var q, r := time / SECOND, time % SECOND;
    assert time == SECOND * q + r;
    assert time / 1_000 == 1_000_000 * q + r / 1_000 && time / 1_000_000 == 1_000 * q + r / 1_000_000;
  }

  /** The level a name stands for; a name that is none stands for the last level. */
  function LevelFromText(name: string): Level {
    if name == "trace" then Trace
    else if name == "debug" then Debug
    else if name == "info" then Info
    else if name == "warning" || name == "warn" then Warn
    else if name == "error" || name == "err" then Err
    else if name == "critical" then Critical
    else Off
  }

  /** A level is read back from its name and from two other names only; the short name is the initial. */
  lemma LevelReads(l: Level, name: string)
    ensures LevelFromText(LevelName(l)) == l
    ensures l != Off && LevelFromText(name) == l ==>
              name == LevelName(l) || (l == Warn && name == "warn") || (l == Err && name == "err")
    ensures ShortLevelName(l) == [Capital(LevelName(l)[0])]
  {}

  function Capital(c: char): char
    requires 'a' <= c <= 'z'
  {
    (c as int - 'a' as int + 'A' as int) as char
  }

  /** The level of a message is read back from its field, and the short field is the initial of that. */
  lemma LevelFieldsRead(env: Env, msg: Msg)
    ensures LevelFromText(PlainText('l', env, msg)) == msg.level
    ensures |PlainText('l', env, msg)| > 0 && 'a' <= PlainText('l', env, msg)[0] <= 'z'
    ensures PlainText('L', env, msg) == [Capital(PlainText('l', env, msg)[0])]
  {}
}
