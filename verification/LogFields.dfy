/** What each flag of a pattern prints, and the size it declares to its padder. */
module LogFields {
  import opened Wrappers
  import opened Padding

  const SECOND: int := 1_000_000_000

  datatype Level = Trace | Debug | Info | Warn | Err | Critical | Off

  datatype Source = Source(filename: string, line: int, funcname: string) {
    predicate Empty() { line == 0 }
  }

  /** A log message; its time is in nanoseconds since the epoch. */
  datatype Msg = Msg(loggerName: string, level: Level, time: int, threadId: nat, source: Source, payload: string)

  type Month = n: nat | n < 12
  type Weekday = n: nat | n < 7

  /** Broken-down time; the year counts from 1900. */
  datatype Tm = Tm(sec: int, min: int, hour: int, mday: int, mon: Month, year: int, wday: Weekday)

  const ZERO_TM := Tm(0, 0, 0, 0, 0, 0, 0)

  datatype TimeType = Local | Utc

  /** What the operating system supplies. */
  datatype Env = Env(localTm: int -> Tm, gmTm: int -> Tm, utcOffset: Tm -> int, pid: nat, folderSeps: string) {
    function Time(timeType: TimeType, secs: int): Tm {
      if timeType == Local then localTm(secs) else gmTm(secs)
    }
  }

  // ------------------------------------------------------------------- numbers

  /** Durations are cast towards zero. */
  function TruncDiv(a: int, b: nat): (q: int)
    requires b > 0
    ensures a >= 0 ==> q * b <= a < (q + 1) * b
    ensures a <= 0 ==> (q - 1) * b < a <= q * b
  {
    if a >= 0 then a / b else -((-a) / b)
  }

  function Secs(time: int): int {
    TruncDiv(time, SECOND)
  }

  /** The part of a second in units of `unit` nanoseconds; negative before the epoch. */
  function Fraction(time: int, unit: nat): int
    requires 0 < unit <= SECOND
  {
    TruncDiv(time, unit) - Secs(time) * (SECOND / unit)
  }

  function Pad2(n: int): string {
    if 0 <= n < 100 then [Digit(n / 10), Digit(n % 10)] else IntText(n)
  }

  function Pad3(n: nat): string {
    if n < 1000 then [Digit(n / 100), Digit(n / 10 % 10), Digit(n % 10)] else Decimal(n)
  }

  function Zeros(n: nat): (s: string)
    ensures |s| == n
  {
    seq(n, _ => '0')
  }

  function PadUint(n: nat, width: nat): string {
    var digits := |Decimal(n)|;
    (if digits < width then Zeros(width - digits) else "") + Decimal(n)
  }

  function Rem100(n: int): int {
    n - 100 * TruncDiv(n, 100)
  }

  // --------------------------------------------------------------------- names

  function LevelName(l: Level): string {
    match l
    case Trace => "trace"
    case Debug => "debug"
    case Info => "info"
    case Warn => "warning"
    case Err => "error"
    case Critical => "critical"
    case Off => "off"
  }

  function ShortLevelName(l: Level): string {
    match l
    case Trace => "T"
    case Debug => "D"
    case Info => "I"
    case Warn => "W"
    case Err => "E"
    case Critical => "C"
    case Off => "O"
  }

  const DAYS := ["Sun", "Mon", "Tue", "Wed", "Thu", "Fri", "Sat"]
  const FULL_DAYS := ["Sunday", "Monday", "Tuesday", "Wednesday", "Thursday", "Friday", "Saturday"]
  const MONTHS := ["Jan", "Feb", "Mar", "Apr", "May", "Jun", "Jul", "Aug", "Sept", "Oct", "Nov", "Dec"]
  const FULL_MONTHS := ["January", "February", "March", "April", "May", "June", "July", "August", "September",
                        "October", "November", "December"]

  /** The part of a path behind its last separator. */
  function Basename(seps: string, path: string): (b: string)
    ensures forall c | c in b :: c !in seps
    ensures |b| <= |path| && path == path[..|path| - |b|] + b
    ensures |b| == |path| || path[|path| - |b| - 1] in seps
  {
    if path == "" || path[|path| - 1] in seps then ""
    else Basename(seps, path[..|path| - 1]) + [path[|path| - 1]]
  }

  function AmPm(tm: Tm): string {
    if tm.hour >= 12 then "PM" else "AM"
  }

  function To12h(tm: Tm): int {
    if tm.hour > 12 then tm.hour - 12 else tm.hour
  }

  function Clock(hour: int, tm: Tm): string {
    Pad2(hour) + ":" + Pad2(tm.min) + ":" + Pad2(tm.sec)
  }

  // -------------------------------------------------------------------- fields

  /** The flags that read the broken-down time. */
  const TIME_FLAGS := {'a', 'A', 'b', 'h', 'B', 'c', 'C', 'Y', 'D', 'x', 'm',
                       'd', 'H', 'I', 'M', 'S', 'p', 'r', 'R', 'T', 'X'}

  /** The flags that read the message and the process only. */
  const PLAIN_FLAGS := {'n', 'l', 'L', 't', 'v', 'e', 'f', 'F', 'E', 'P', '@', 's', 'g', '#', '!'}

  function TimeText(flag: char, tm: Tm): string {
    match flag
    case 'a' => DAYS[tm.wday]
    case 'A' => FULL_DAYS[tm.wday]
    case 'b' => MONTHS[tm.mon]
    case 'h' => MONTHS[tm.mon]
    case 'B' => FULL_MONTHS[tm.mon]
    case 'c' =>
      DAYS[tm.wday] + " " + MONTHS[tm.mon] + " " + IntText(tm.mday) + " " + Clock(tm.hour, tm) + " " +
      IntText(tm.year + 1900)
    case 'C' => Pad2(Rem100(tm.year))
    case 'Y' => IntText(tm.year + 1900)
    case 'D' => Pad2(tm.mon + 1) + "/" + Pad2(tm.mday) + "/" + Pad2(Rem100(tm.year))
    case 'x' => Pad2(tm.mon + 1) + "/" + Pad2(tm.mday) + "/" + Pad2(Rem100(tm.year))
    case 'm' => Pad2(tm.mon + 1)
    case 'd' => Pad2(tm.mday)
    case 'H' => Pad2(tm.hour)
    case 'I' => Pad2(To12h(tm))
    case 'M' => Pad2(tm.min)
    case 'S' => Pad2(tm.sec)
    case 'p' => AmPm(tm)
    case 'r' => Clock(To12h(tm), tm) + " " + AmPm(tm)
    case 'R' => Pad2(tm.hour) + ":" + Pad2(tm.min)
    case _ => Clock(tm.hour, tm)
  }

  function SourceText(flag: char, env: Env, source: Source): string {
    if source.Empty() then ""
    else
      match flag
      case '@' => source.filename + ":" + IntText(source.line)
      case 's' => Basename(env.folderSeps, source.filename)
      case 'g' => source.filename
      case '#' => IntText(source.line)
      case _ => source.funcname
  }

  function PlainText(flag: char, env: Env, msg: Msg): string {
    match flag
    case 'n' => msg.loggerName
    case 'l' => LevelName(msg.level)
    case 'L' => ShortLevelName(msg.level)
    case 't' => Decimal(msg.threadId)
    case 'v' => msg.payload
    case 'e' => Pad3(Fraction(msg.time, 1_000_000) % 0x1_0000_0000)
    case 'f' => PadUint(Fraction(msg.time, 1_000) % 0x1_0000_0000_0000_0000, 6)
    case 'F' => PadUint(Fraction(msg.time, 1) % 0x1_0000_0000_0000_0000, 9)
    case 'E' => IntText(Secs(msg.time))
    case 'P' => Decimal(env.pid)
    case _ => SourceText(flag, env, msg.source)
  }

  function FieldText(flag: char, env: Env, msg: Msg, tm: Tm): string {
    if flag in TIME_FLAGS then TimeText(flag, tm) else PlainText(flag, env, msg)
  }

  /** A line is counted as an unsigned number, so a negative one counts as a large one. */
  function LineDigits(line: int): nat {
    |Decimal(line % 0x1_0000_0000)|
  }

  function DeclaredSource(flag: char, env: Env, source: Source): nat {
    if source.Empty() then 0
    else
      match flag
      case '@' => |source.filename| + LineDigits(source.line) + 1
      case '#' => LineDigits(source.line)
      case _ => |SourceText(flag, env, source)|
  }

  /** The size a flag declares before it prints. */
  function Declared(flag: char, env: Env, msg: Msg, tm: Tm): nat {
    match flag
    case 'a' => |TimeText(flag, tm)|
    case 'A' => |TimeText(flag, tm)|
    case 'b' => |TimeText(flag, tm)|
    case 'h' => |TimeText(flag, tm)|
    case 'B' => |TimeText(flag, tm)|
    case 'c' => 24
    case 'D' => 10
    case 'x' => 10
    case 'Y' => 4
    case 'r' => 11
    case 'R' => 5
    case 'T' => 8
    case 'X' => 8
    case 'e' => 3
    case 'f' => 6
    case 'F' => 9
    case 'E' => 10
    case _ =>
      if flag in TIME_FLAGS then 2
      else if flag in {'@', 's', 'g', '#', '!'} then DeclaredSource(flag, env, msg.source)
      else |PlainText(flag, env, msg)|
  }

  /**
   A calendar time in four-digit years, which are all that a 64-bit count of
   nanoseconds can reach, or the zeroed time, whose day is 0.
   */
  predicate InCalendar(tm: Tm) {
    && 0 <= tm.sec <= 60 && 0 <= tm.min < 60 && 0 <= tm.hour < 24 && 0 <= tm.mday <= 31
    && -900 <= tm.year < 8100
  }

  /** Ten characters, the sign of a negative number being one. */
  predicate TenCharacters(n: int) {
    1_000_000_000 <= n < 10_000_000_000 || -1_000_000_000 < n <= -100_000_000
  }

  /** Exactly when a flag declares the size it prints. */
  predicate DeclaresTruly(flag: char, msg: Msg, tm: Tm) {
    match flag
    case 'e' => Fraction(msg.time, 1_000_000) >= 0
    case 'f' => Fraction(msg.time, 1_000) >= 0
    case 'F' => Fraction(msg.time, 1) >= 0
    case 'E' => TenCharacters(Secs(msg.time))
    case '@' => msg.source.line >= 0 || TenCharacters(msg.source.line)
    case '#' => msg.source.line >= 0 || TenCharacters(msg.source.line)
    case 'c' => tm.mon == 8 <==> tm.mday < 10
    case 'C' => Rem100(tm.year) > -10
    case 'D' => false
    case 'x' => false
    case _ => true
  }

  // ------------------------------------------------------------ sizes of numbers

  function Power10(k: nat): (p: nat)
    ensures p >= 1
  {
    if k == 0 then 1 else 10 * Power10(k - 1)
  }

  lemma {:induction false} DecimalAtMost(n: nat, k: nat)
    requires k >= 1 && n < Power10(k)
    ensures |Decimal(n)| <= k
    decreases k
  {
    if n >= 10 { DecimalAtMost(n / 10, k - 1); }
  }

  lemma {:induction false} DecimalAtLeast(n: nat, k: nat)
    requires n >= Power10(k)
    ensures |Decimal(n)| > k
    decreases k
  {
    if k > 0 { DecimalAtLeast(n / 10, k - 1); }
  }

  lemma Powers()
    ensures Power10(3) == 1_000 && Power10(6) == 1_000_000 && Power10(8) == 100_000_000
    ensures Power10(9) == 1_000_000_000 && Power10(10) == 10_000_000_000
  {
    assert Power10(3) == 1_000 && Power10(6) == 1_000_000;
  }

  lemma NumberSizes(n: nat)
    ensures n < 10 ==> |Decimal(n)| == 1
    ensures 10 <= n < 100 ==> |Decimal(n)| == 2
    ensures 1000 <= n < 10000 ==> |Decimal(n)| == 4
  {
    if n < 10000 { FewDigits(n); }
  }

  lemma NineDigitsExactly(n: nat)
    ensures |Decimal(n)| == 9 <==> 100_000_000 <= n < 1_000_000_000
  {
    hide Decimal, Power10;
    Powers();
    if n >= 1_000_000_000 { DecimalAtLeast(n, 9); } else { DecimalAtMost(n, 9); }
    if n >= 100_000_000 { DecimalAtLeast(n, 8); } else { DecimalAtMost(n, 8); }
  }

  lemma TenDigitsExactly(n: nat)
    ensures |Decimal(n)| == 10 <==> 1_000_000_000 <= n < 10_000_000_000
  {
    hide Decimal, Power10;
    Powers();
    if n >= 10_000_000_000 { DecimalAtLeast(n, 10); } else { DecimalAtMost(n, 10); }
    if n >= 1_000_000_000 { DecimalAtLeast(n, 9); } else { DecimalAtMost(n, 9); }
  }

  lemma TenCharactersExactly(n: int)
    ensures |IntText(n)| == 10 <==> TenCharacters(n)
  {
    hide Decimal;
    if n < 0 { NineDigitsExactly(-n); } else { TenDigitsExactly(n); }
  }

  // --------------------------------------------------------- true declarations

  lemma DateTimeExactly(env: Env, msg: Msg, tm: Tm)
    requires InCalendar(tm)
    ensures |TimeText('c', tm)| == Declared('c', env, msg, tm) <==> (tm.mon == 8 <==> tm.mday < 10)
  {
    NumberSizes(tm.year + 1900);
    NumberSizes(tm.mday);
  }

  /** The two digits of the year are those behind its century, with a minus before 1900. */
  lemma ShortYearExactly(year: int)
    ensures |Pad2(Rem100(year))| == (if Rem100(year) > -10 then 2 else 3)
  {
    hide Decimal, TruncDiv;
    RemBounds(year);
    if Rem100(year) < 0 { NumberSizes(-Rem100(year)); }
  }

  lemma RemBounds(n: int)
    ensures -100 < Rem100(n) < 100
  {}

  /** The short date declares ten characters and prints eight, or nine in the years whose two digits take three. */
  lemma ShortDateEstimate(flag: char, env: Env, msg: Msg, tm: Tm)
    requires flag in {'D', 'x'} && InCalendar(tm)
    ensures |TimeText(flag, tm)| == (if Rem100(tm.year) > -10 then 8 else 9) && Declared(flag, env, msg, tm) == 10
  {
    hide Rem100;
    ShortYearExactly(tm.year);
  }

  lemma ClockFieldExact(flag: char, env: Env, msg: Msg, tm: Tm)
    requires InCalendar(tm) && flag in {'r', 'R', 'T', 'X'}
    ensures Declared(flag, env, msg, tm) == |TimeText(flag, tm)|
  {
    ClockSize(tm.hour, tm);
    ClockSize(To12h(tm), tm);
    hide Clock;
  }

  lemma ClockSize(hour: int, tm: Tm)
    requires 0 <= hour < 100 && InCalendar(tm)
    ensures |Clock(hour, tm)| == 8
  {}

  lemma TimeFieldExactly(flag: char, env: Env, msg: Msg, tm: Tm)
    requires InCalendar(tm) && flag in TIME_FLAGS
    ensures Declared(flag, env, msg, tm) == |TimeText(flag, tm)| <==> DeclaresTruly(flag, msg, tm)
  {
    hide Decimal, Clock;
    if flag == 'c' {
      DateTimeExactly(env, msg, tm);
    } else if flag in {'r', 'R', 'T', 'X'} {
      ClockFieldExact(flag, env, msg, tm);
    } else if flag in {'D', 'x'} {
      ShortDateEstimate(flag, env, msg, tm);
    } else if flag == 'Y' {
      NumberSizes(tm.year + 1900);
    } else if flag == 'C' {
      ShortYearExactly(tm.year);
    }
  }

  lemma FractionAfterEpoch(time: int, unit: nat)
    requires time >= 0 && unit in {1, 1_000, 1_000_000}
    ensures 0 <= Fraction(time, unit) < SECOND / unit
  {
    assert time == SECOND * (time / SECOND) + time % SECOND;
  }

  lemma FractionIsOdd(time: int, unit: nat)
    requires time < 0 && unit in {1, 1_000, 1_000_000}
    ensures Fraction(time, unit) == -Fraction(-time, unit)
  {
    assert Secs(time) == -Secs(-time) && TruncDiv(time, unit) == -TruncDiv(-time, unit);
  }

  /** A fraction is smaller than a second, on its side of the epoch. */
  lemma FractionBounds(time: int, unit: nat)
    requires unit in {1, 1_000, 1_000_000}
    ensures -(SECOND / unit) < Fraction(time, unit) < SECOND / unit
    ensures time >= 0 ==> Fraction(time, unit) >= 0
  {
    hide Fraction;
    if time >= 0 {
      FractionAfterEpoch(time, unit);
    } else {
      FractionAfterEpoch(-time, unit);
      FractionIsOdd(time, unit);
    }
  }

  lemma PadUintSize(n: nat, width: nat)
    requires 1 <= width
    ensures n < Power10(width) ==> |PadUint(n, width)| == width
    ensures n >= Power10(width) ==> |PadUint(n, width)| > width
  {
    hide Decimal, Power10;
    if n < Power10(width) { DecimalAtMost(n, width); } else { DecimalAtLeast(n, width); }
  }

  lemma Pad3Size(n: nat)
    ensures |Pad3(n)| == 3 <==> n < 1_000
  {
    hide Decimal, Power10;
    Powers();
    if n >= 1_000 { DecimalAtLeast(n, 3); }
  }

  /** A negative fraction wraps around to a number far beyond the columns that are declared. */
  lemma FractionFieldExactly(flag: char, env: Env, msg: Msg, tm: Tm)
    requires flag in {'e', 'f', 'F'}
    ensures Declared(flag, env, msg, tm) == |PlainText(flag, env, msg)| <==> DeclaresTruly(flag, msg, tm)
  {
    hide Decimal, Fraction, Power10, PadUint, Pad3;
    Powers();
    if flag == 'e' {
      FractionBounds(msg.time, 1_000_000);
      Pad3Size(Fraction(msg.time, 1_000_000) % 0x1_0000_0000);
    } else if flag == 'f' {
      FractionBounds(msg.time, 1_000);
      PadUintSize(Fraction(msg.time, 1_000) % 0x1_0000_0000_0000_0000, 6);
    } else {
      FractionBounds(msg.time, 1);
      PadUintSize(Fraction(msg.time, 1) % 0x1_0000_0000_0000_0000, 9);
    }
  }

  /** A millisecond before the epoch, three columns are declared and ten printed. */
  lemma FractionBeforeEpoch(env: Env, msg: Msg, tm: Tm)
    requires msg.time == -1_000_000
    ensures Declared('e', env, msg, tm) == 3 && |PlainText('e', env, msg)| == 10
  {
    hide Decimal;
    assert Fraction(msg.time, 1_000_000) == -1;
    TenDigitsExactly(0xFFFF_FFFF);
  }

  /** The count of a negative line has ten digits, which its text has only by chance. */
  lemma LineExactly(line: int)
    requires -0x8000_0000 <= line < 0x8000_0000
    ensures LineDigits(line) == |IntText(line)| <==> line >= 0 || TenCharacters(line)
  {
    hide Decimal;
    TenCharactersExactly(line);
    if line < 0 {
      assert line % 0x1_0000_0000 == line + 0x1_0000_0000;
      TenDigitsExactly(line + 0x1_0000_0000);
    } else {
      assert line % 0x1_0000_0000 == line;
    }
  }

  lemma SourceFieldExactly(flag: char, env: Env, msg: Msg, tm: Tm)
    requires flag in {'@', 's', 'g', '#', '!'} && -0x8000_0000 <= msg.source.line < 0x8000_0000
    ensures DeclaredSource(flag, env, msg.source) == |SourceText(flag, env, msg.source)| <==>
            DeclaresTruly(flag, msg, tm)
  {
    hide IntText, LineDigits, Basename, TenCharacters, Fraction;
    LineExactly(msg.source.line);
  }

  lemma PlainFieldExactly(flag: char, env: Env, msg: Msg, tm: Tm)
    requires flag in PLAIN_FLAGS && -0x8000_0000 <= msg.source.line < 0x8000_0000
    ensures Declared(flag, env, msg, tm) == |PlainText(flag, env, msg)| <==> DeclaresTruly(flag, msg, tm)
  {
    hide Decimal, Fraction, IntText, SourceText, DeclaredSource, Pad3, PadUint, TimeText, LevelName, ShortLevelName,
      TenCharacters;
    if flag in {'e', 'f', 'F'} {
      FractionFieldExactly(flag, env, msg, tm);
    } else if flag == 'E' {
      TenCharactersExactly(Secs(msg.time));
    } else if flag in {'@', 's', 'g', '#', '!'} {
      SourceFieldExactly(flag, env, msg, tm);
    }
  }

  /** Every field flag declares the size it prints exactly under its condition; the line is an int. */
  lemma DeclaredExactly(flag: char, env: Env, msg: Msg, tm: Tm)
    requires flag in TIME_FLAGS || flag in PLAIN_FLAGS
    requires flag in TIME_FLAGS ==> InCalendar(tm)
    requires -0x8000_0000 <= msg.source.line < 0x8000_0000
    ensures Declared(flag, env, msg, tm) == |FieldText(flag, env, msg, tm)| <==> DeclaresTruly(flag, msg, tm)
  {
    if flag in TIME_FLAGS { TimeFieldExactly(flag, env, msg, tm); } else { PlainFieldExactly(flag, env, msg, tm); }
  }

  /** Under its condition a padded field has the width it was given, and leaves earlier output alone. */
  lemma FieldsFillTheirWidth(flag: char, env: Env, msg: Msg, tm: Tm, p: PaddingInfo, dest: string)
    requires flag in TIME_FLAGS || flag in PLAIN_FLAGS
    requires flag in TIME_FLAGS ==> InCalendar(tm)
    requires -0x8000_0000 <= msg.source.line < 0x8000_0000
    requires p.enabled && DeclaresTruly(flag, msg, tm)
    ensures var out := Padded(dest, Declared(flag, env, msg, tm), p, FieldText(flag, env, msg, tm));
            var n := |FieldText(flag, env, msg, tm)|;
            && out.Some? && dest <= out.value
            && |out.value| - |dest| == if p.truncate || n < p.width then p.width else n
  {
    hide Declared, FieldText, DeclaresTruly;
    DeclaredExactly(flag, env, msg, tm);
    FieldWidth(dest, p, FieldText(flag, env, msg, tm));
  }

  /** In particular at the zeroed time, which a formatter hands to its fields until it looks a time up. */
  lemma FieldsFillTheirWidthAtZero(flag: char, env: Env, msg: Msg, p: PaddingInfo, dest: string)
    requires flag in TIME_FLAGS || flag in PLAIN_FLAGS
    requires -0x8000_0000 <= msg.source.line < 0x8000_0000
    requires p.enabled && DeclaresTruly(flag, msg, ZERO_TM)
    ensures var out := Padded(dest, Declared(flag, env, msg, ZERO_TM), p, FieldText(flag, env, msg, ZERO_TM));
            var n := |FieldText(flag, env, msg, ZERO_TM)|;
            && out.Some? && dest <= out.value
            && |out.value| - |dest| == if p.truncate || n < p.width then p.width else n
  {
    hide Declared, FieldText, DeclaresTruly;
    assert InCalendar(ZERO_TM);
    FieldsFillTheirWidth(flag, env, msg, ZERO_TM, p, dest);
  }

  /** A truncated short date of no width takes two characters of earlier output with it, or one. */
  lemma ShortDateCutsEarlierOutput(env: Env, msg: Msg, tm: Tm, dest: string)
    requires InCalendar(tm) && |dest| >= 2
    ensures Padded(dest, Declared('D', env, msg, tm), PaddingInfo(0, Left, true, true), FieldText('D', env, msg, tm)) ==
            Some(dest[..|dest| - (if Rem100(tm.year) > -10 then 2 else 1)])
  {
    hide TimeText, Rem100;
    ShortDateEstimate('D', env, msg, tm);
    var text := TimeText('D', tm);
    var left := |dest| + |text| - 10;
    assert (dest + text)[..left] == dest[..left];
  }

  /** The flags that do not set the need for the time do not read it. */
  lemma PlainFieldsIgnoreTime(flag: char, env: Env, msg: Msg, tm: Tm, tm': Tm)
    requires flag !in TIME_FLAGS
    ensures FieldText(flag, env, msg, tm) == FieldText(flag, env, msg, tm')
    ensures Declared(flag, env, msg, tm) == Declared(flag, env, msg, tm')
  {}

  /** Midnight of Sunday, the first of January 2000, and Monday, the second of February 2001, a second past 13:01. */
  const EARLIER := Tm(0, 0, 0, 1, 0, 100, 0)
  const LATER := Tm(1, 1, 13, 2, 1, 101, 1)

  /** Numbers with different last digits print differently. */
  lemma Pad2Differs(m: int, n: int)
    requires 0 <= m < 100 && 0 <= n < 100 && m % 10 != n % 10
    ensures Pad2(m)[1] != Pad2(n)[1] && |Pad2(m)| == |Pad2(n)| == 2
  {}

  lemma YearsDiffer()
    ensures TimeText('Y', EARLIER) != TimeText('Y', LATER)
  {
    var earlier, later := Decimal(2000), Decimal(2001);
    assert earlier == Decimal(200) + [Digit(0)] && later == Decimal(200) + [Digit(1)];
    assert earlier[|earlier| - 1] == Digit(0) && later[|earlier| - 1] == Digit(1);
  }

  lemma DatesDiffer()
    ensures TimeText('c', EARLIER) != TimeText('c', LATER)
  {
    hide Clock, IntText;
    assert TimeText('c', EARLIER)[0] == 'S' && TimeText('c', LATER)[0] == 'M';
  }

  lemma ClockDiffers(earlier: int, later: int, s: string, t: string)
    requires 0 <= earlier < 100 && 0 <= later < 100 && earlier % 10 != later % 10
    ensures Clock(earlier, EARLIER) + s != Clock(later, LATER) + t
  {
    hide Pad2;
    Pad2Differs(earlier, later);
    assert (Clock(earlier, EARLIER) + s)[1] == Pad2(earlier)[1] && (Clock(later, LATER) + t)[1] == Pad2(later)[1];
  }

  lemma ClocksDiffer(flag: char)
    requires flag in {'r', 'T', 'X'}
    ensures TimeText(flag, EARLIER) != TimeText(flag, LATER)
  {
    hide Pad2, Clock;
    ClockDiffers(0, 13, "", "");
    ClockDiffers(0, 1, " " + AmPm(EARLIER), " " + AmPm(LATER));
    var earlier, later := TimeText(flag, EARLIER), TimeText(flag, LATER);
    if flag == 'r' {
      assert earlier == Clock(0, EARLIER) + (" " + AmPm(EARLIER)) && later == Clock(1, LATER) + (" " + AmPm(LATER));
    } else {
      assert earlier + "" == earlier && later + "" == later;
    }
  }

  /** The other texts that begin with a number of two digits. */
  lemma NumbersDiffer(flag: char)
    requires flag in {'D', 'x', 'R', 'm', 'd', 'H', 'I', 'M', 'S', 'C'}
    ensures TimeText(flag, EARLIER) != TimeText(flag, LATER)
  {
    hide Pad2, AmPm;
    Pad2Differs(0, 1);
    Pad2Differs(0, 13);
    Pad2Differs(1, 2);
    assert TimeText(flag, EARLIER)[1] != TimeText(flag, LATER)[1];
  }

  lemma TimeFlagDiffers(flag: char)
    requires flag in TIME_FLAGS
    ensures TimeText(flag, EARLIER) != TimeText(flag, LATER)
  {
    hide Pad2, Clock, IntText;
    if flag == 'c' {
      DatesDiffer();
    } else if flag == 'Y' {
      YearsDiffer();
    } else if flag in {'r', 'T', 'X'} {
      ClocksDiffer(flag);
    } else if flag !in {'a', 'A', 'b', 'h', 'B', 'p'} {
      NumbersDiffer(flag);
    }
  }

  /** The flags that set the need for the time are those that print two calendar times differently, in any message. */
  lemma FieldReadsTimeExactly(flag: char, env: Env, msg: Msg)
    ensures flag in TIME_FLAGS <==>
            exists tm, tm' :: InCalendar(tm) && InCalendar(tm') &&
                              FieldText(flag, env, msg, tm) != FieldText(flag, env, msg, tm')
  {
    hide TimeText, PlainText;
    if flag in TIME_FLAGS {
      TimeFlagDiffers(flag);
      assert InCalendar(EARLIER) && InCalendar(LATER);
      assert FieldText(flag, env, msg, EARLIER) != FieldText(flag, env, msg, LATER);
    } else {
      forall tm, tm' ensures FieldText(flag, env, msg, tm) == FieldText(flag, env, msg, tm') {
        PlainFieldsIgnoreTime(flag, env, msg, tm, tm');
      }
    }
  }

  // ----------------------------------------------------------- the full format

  function DateText(tm: Tm): string {
    IntText(tm.year + 1900) + "-" + Pad2(tm.mon + 1) + "-" + Pad2(tm.mday)
  }

  /** The part of the default format that is cached for a second. */
  function FullDate(tm: Tm): (s: string)
    ensures s != ""
  {
    "[" + DateText(tm) + " " + Clock(tm.hour, tm) + "."
  }

  lemma FullDatesDiffer()
    ensures FullDate(EARLIER) != FullDate(LATER)
  {
    hide Clock, Pad2;
    FewDigits(200);
    assert Decimal(2000) == Decimal(200) + [Digit(0)] && Decimal(2001) == Decimal(200) + [Digit(1)];
    assert FullDate(EARLIER)[4] == Digit(0) && FullDate(LATER)[4] == Digit(1);
  }

  /** From the milliseconds to the bracket in front of the level. */
  function FullHead(msg: Msg): string {
    Pad3(Fraction(msg.time, 1_000_000) % 0x1_0000_0000) + "] " +
    (if msg.loggerName != "" then "[" + msg.loggerName + "] " else "") + "["
  }

  function PlaceText(env: Env, source: Source): string {
    if source.Empty() then ""
    else "[" + Basename(env.folderSeps, source.filename) + ":" + IntText(source.line) + "] "
  }

  /** From the bracket behind the level to the end. */
  function FullTail(env: Env, msg: Msg): string {
    "] " + PlaceText(env, msg.source) + msg.payload
  }
}
