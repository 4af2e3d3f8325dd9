/**
 Patterns that print the same: the ones the comments of the code call
 equivalent, the full format and the pattern in its comment, with the exact
 condition under which they agree, in one message and over whole runs.
 */
module PatternEquivalences {
  import opened Wrappers
  import opened Padding
  import opened LogFields
  import opened PatternGrammar
  import opened FormatterModel
  import opened FormatterTheorems
  import opened PatternMeaning
  import opened Templates

  // -------------------------------------------------------------- times and dates

  const HOUR_MINUTE := Then("", 'H', Then(":", 'M', Tail("")))
  const ISO_TIME := Then("", 'H', Then(":", 'M', Then(":", 'S', Tail(""))))
  const TWELVE_HOURS := Then("", 'I', Then(":", 'M', Then(":", 'S', Then(" ", 'p', Tail("")))))
  const SHORT_DATE := Then("", 'm', Then("/", 'd', Then("/", 'C', Tail(""))))
  const PLACE := Then("", 'g', Then(":", '#', Tail("")))
  const DATE_AND_TIME := Then("", 'a', Then(" ", 'b', Then(" ", 'd', Then(" ", 'T', Then(" ", 'Y', Tail(""))))))

  function Only(c: char): Template {
    Then("", c, Tail(""))
  }

  lemma TextStep(env: Env, msg: Msg, tm: Tm, text: string, c: char, rest: Template)
    ensures Texts(env, msg, tm, Then(text, c, rest)) == text + (FieldText(c, env, msg, tm) + Texts(env, msg, tm, rest))
    ensures Texts(env, msg, tm, Tail(text)) == text
  {}

  lemma OneText(env: Env, msg: Msg, tm: Tm, text: string, c: char)
    ensures Texts(env, msg, tm, Then(text, c, Tail(""))) == text + FieldText(c, env, msg, tm)
  {
    hide FieldText;
    TextStep(env, msg, tm, text, c, Tail(""));
    assert FieldText(c, env, msg, tm) + "" == FieldText(c, env, msg, tm);
  }

  lemma TwoTexts(env: Env, msg: Msg, tm: Tm, text: string, c: char, x: string, d: char)
    ensures Texts(env, msg, tm, Then(text, c, Then(x, d, Tail("")))) ==
            text + FieldText(c, env, msg, tm) + x + FieldText(d, env, msg, tm)
  {
    hide FieldText, Texts, Then;
    TextStep(env, msg, tm, text, c, Then(x, d, Tail("")));
    OneText(env, msg, tm, x, d);
  }

  lemma ThreeTexts(env: Env, msg: Msg, tm: Tm, c: char, x: string, d: char, y: string, e: char)
    ensures Texts(env, msg, tm, Then("", c, Then(x, d, Then(y, e, Tail(""))))) ==
            FieldText(c, env, msg, tm) + x + FieldText(d, env, msg, tm) + y + FieldText(e, env, msg, tm)
  {
    hide FieldText, Texts, Then;
    TextStep(env, msg, tm, "", c, Then(x, d, Then(y, e, Tail(""))));
    TwoTexts(env, msg, tm, x, d, y, e);
    var f, g, h := FieldText(c, env, msg, tm), FieldText(d, env, msg, tm), FieldText(e, env, msg, tm);
    assert "" + (f + (x + g + y + h)) == f + x + g + y + h;
  }

  lemma OnlyText(env: Env, msg: Msg, tm: Tm, c: char)
    ensures Texts(env, msg, tm, Only(c)) == FieldText(c, env, msg, tm)
  {
    OneText(env, msg, tm, "", c);
    hide FieldText, Texts;
    assert "" + FieldText(c, env, msg, tm) == FieldText(c, env, msg, tm);
  }

  /** At any time, from its parts. */
  lemma TimeTexts(env: Env, msg: Msg, tm: Tm)
    ensures Texts(env, msg, tm, HOUR_MINUTE) == TimeText('R', tm)
    ensures Texts(env, msg, tm, ISO_TIME) == TimeText('T', tm)
    ensures Texts(env, msg, tm, SHORT_DATE) == TimeText('D', tm)
  {
    TwoTexts(env, msg, tm, "", 'H', ":", 'M');
    ThreeTexts(env, msg, tm, 'H', ":", 'M', ":", 'S');
    ThreeTexts(env, msg, tm, 'm', "/", 'd', "/", 'C');
    hide Pad2, Texts;
    assert "" + Pad2(tm.hour) == Pad2(tm.hour);
  }

  lemma TwelveHourTexts(env: Env, msg: Msg, tm: Tm)
    ensures Texts(env, msg, tm, TWELVE_HOURS) == TimeText('r', tm)
  {
    TextStep(env, msg, tm, "", 'I', Then(":", 'M', Then(":", 'S', Then(" ", 'p', Tail("")))));
    TextStep(env, msg, tm, ":", 'M', Then(":", 'S', Then(" ", 'p', Tail(""))));
    TwoTexts(env, msg, tm, ":", 'S', " ", 'p');
    hide Pad2, Texts, AmPm, To12h;
    FourParts(Pad2(To12h(tm)), ":", Pad2(tm.min), ":", Pad2(tm.sec), " ", AmPm(tm));
  }

  lemma FourParts(a: string, x: string, b: string, y: string, c: string, z: string, d: string)
    ensures "" + (a + (x + (b + (y + c + z + d)))) == a + x + b + y + c + z + d
  {
    assert x + (b + (y + c + z + d)) == x + b + (y + c + z + d);
    assert a + (x + b + (y + c + z + d)) == a + x + b + (y + c + z + d);
  }

  /** A place is the path and the line; without a line it is nothing, where the two flags leave the colon. */
  lemma PlaceTexts(env: Env, msg: Msg, tm: Tm)
    ensures Texts(env, msg, tm, PLACE) == PlainText('@', env, msg) <==> !msg.source.Empty()
  {
    TwoTexts(env, msg, tm, "", 'g', ":", '#');
    hide IntText, Texts;
    assert "" + PlainText('g', env, msg) == PlainText('g', env, msg);
  }

  /** The date and time are the parts but for the day, which is not filled up to two digits. */
  lemma DateAndTimeTexts(env: Env, msg: Msg, tm: Tm)
    ensures Texts(env, msg, tm, DATE_AND_TIME) == TimeText('c', tm) <==> !(0 <= tm.mday < 10)
  {
    TextStep(env, msg, tm, "", 'a', Then(" ", 'b', Then(" ", 'd', Then(" ", 'T', Then(" ", 'Y', Tail(""))))));
    TextStep(env, msg, tm, " ", 'b', Then(" ", 'd', Then(" ", 'T', Then(" ", 'Y', Tail("")))));
    TextStep(env, msg, tm, " ", 'd', Then(" ", 'T', Then(" ", 'Y', Tail(""))));
    TwoTexts(env, msg, tm, " ", 'T', " ", 'Y');
    DayTexts(tm.mday);
    hide Pad2, IntText, Texts, Clock;
    DateParts(DAYS[tm.wday], MONTHS[tm.mon], Pad2(tm.mday), IntText(tm.mday), Clock(tm.hour, tm),
              IntText(tm.year + 1900));
  }

  lemma DayTexts(day: int)
    ensures Pad2(day) == IntText(day) <==> !(0 <= day < 10)
    ensures 0 <= day < 10 ==> |Pad2(day)| != |IntText(day)|
  {
    if 0 <= day < 100 { FewDigits(day); }
    if 10 <= day < 100 {
      assert Decimal(day) == Decimal(day / 10) + [Digit(day % 10)];
    }
  }

  lemma DateParts(a: string, b: string, d: string, d': string, t: string, y: string)
    requires d != d' ==> |d| != |d'|
    ensures "" + (a + (" " + (b + (" " + (d + (" " + t + " " + y)))))) ==
            a + " " + b + " " + d' + " " + t + " " + y <==>
            d == d'
  {
    var left := "" + (a + (" " + (b + (" " + (d + (" " + t + " " + y))))));
    var right := a + " " + b + " " + d' + " " + t + " " + y;
    assert |left| - |d| == |right| - |d'|;
    if d == d' {
      assert left == a + " " + b + (" " + (d + (" " + t + " " + y)));
      assert right == a + " " + b + (" " + d + " " + t + " " + y);
    }
  }

  /** The spellings of the templates. */
  lemma Spellings()
    ensures HOUR_MINUTE.Spelling() == "%H:%M" && ISO_TIME.Spelling() == "%H:%M:%S"
    ensures TWELVE_HOURS.Spelling() == "%I:%M:%S %p" && SHORT_DATE.Spelling() == "%m/%d/%C"
    ensures PLACE.Spelling() == "%g:%#"
  {
    BareText();
    hide Spec.Text;
  }

  lemma BareText()
    ensures BARE.Text() == ""
  {}

  lemma OnlySpelled(c: char)
    ensures Only(c).Spelling() == "%" + [c]
  {
    BareText();
    hide Spec.Text;
  }

  lemma SimpleTemplates()
    ensures Simple(HOUR_MINUTE) && Simple(ISO_TIME) && Simple(TWELVE_HOURS) && Simple(SHORT_DATE) && Simple(PLACE)
  {}

  /** The texts of a field and of a template are the same at any time. */
  ghost predicate FieldIs(env: Env, c: char, t: Template, msg: Msg) {
    forall tm :: FieldText(c, env, msg, tm) == Texts(env, msg, tm, t)
  }

  lemma OnlySimple(c: char)
    requires c in {'R', 'T', 'X', 'r', 'D', 'x', '@'}
    ensures Simple(Only(c))
  {
    hide Template.Fill, Template.Spelling, Template.Segments;
  }

  lemma OnlyAlike(env: Env, p: string, c: char, t: Template, msg: Msg)
    requires p == "%" + [c] && c in {'R', 'T', 'X', 'r', 'D', 'x', '@'} && Simple(t)
    ensures Alike(env, p, t.Spelling(), msg) <==> FieldIs(env, c, t, msg)
  {
    hide Alike, Texts, FieldText, Template.Spelling, Simple, Only;
    OnlySimple(c);
    OnlySpelled(c);
    TextsAlike(env, Only(c), t, msg);
    forall tm ensures Texts(env, msg, tm, Only(c)) == FieldText(c, env, msg, tm) {
      OnlyText(env, msg, tm, c);
    }
  }

  lemma TimeFieldsAre(env: Env, msg: Msg)
    ensures FieldIs(env, 'R', HOUR_MINUTE, msg) && FieldIs(env, 'T', ISO_TIME, msg) && FieldIs(env, 'X', ISO_TIME, msg)
    ensures FieldIs(env, 'r', TWELVE_HOURS, msg)
    ensures FieldIs(env, 'D', SHORT_DATE, msg) && FieldIs(env, 'x', SHORT_DATE, msg)
  {
    hide Texts, Pad2, AmPm;
    forall tm
      ensures Texts(env, msg, tm, HOUR_MINUTE) == TimeText('R', tm)
      ensures Texts(env, msg, tm, ISO_TIME) == TimeText('T', tm)
      ensures Texts(env, msg, tm, SHORT_DATE) == TimeText('D', tm)
      ensures Texts(env, msg, tm, TWELVE_HOURS) == TimeText('r', tm)
    {
      TimeTexts(env, msg, tm);
      TwelveHourTexts(env, msg, tm);
    }
  }

  /** The patterns that the comments of the code call equivalent print every message alike. */
  lemma TimePatternsAlike(env: Env, msg: Msg)
    ensures Alike(env, "%R", "%H:%M", msg)
    ensures Alike(env, "%T", "%H:%M:%S", msg) && Alike(env, "%X", "%H:%M:%S", msg)
    ensures Alike(env, "%r", "%I:%M:%S %p", msg)
    ensures Alike(env, "%D", "%m/%d/%C", msg) && Alike(env, "%x", "%m/%d/%C", msg)
  {
    hide Alike, Simple, FieldIs, Template.Spelling;
    Spellings();
    SimpleTemplates();
    TimeFieldsAre(env, msg);
    OnlyAlike(env, "%R", 'R', HOUR_MINUTE, msg);
    OnlyAlike(env, "%T", 'T', ISO_TIME, msg);
    OnlyAlike(env, "%X", 'X', ISO_TIME, msg);
    OnlyAlike(env, "%r", 'r', TWELVE_HOURS, msg);
    OnlyAlike(env, "%D", 'D', SHORT_DATE, msg);
    OnlyAlike(env, "%x", 'x', SHORT_DATE, msg);
  }

  lemma PlaceIs(env: Env, msg: Msg)
    ensures FieldIs(env, '@', PLACE, msg) <==> !msg.source.Empty()
  {
    hide Texts, PlainText;
    forall tm ensures FieldText('@', env, msg, tm) == Texts(env, msg, tm, PLACE) <==> !msg.source.Empty() {
      PlaceTexts(env, msg, tm);
    }
    assert FieldText('@', env, msg, ZERO_TM) == Texts(env, msg, ZERO_TM, PLACE) <==> !msg.source.Empty();
  }

  /** The source location is the path and the line exactly if there is a location. */
  lemma PlacePatternExactly(env: Env, msg: Msg)
    ensures Alike(env, "%@", "%g:%#", msg) <==> msg.source.line != 0
  {
    hide Alike, Simple, FieldIs, Template.Spelling;
    Spellings();
    SimpleTemplates();
    PlaceIs(env, msg);
    OnlyAlike(env, "%@", '@', PLACE, msg);
  }

  // ------------------------------------------------------------ the full format

  /** A template behind another one that ends without a literal text. */
  function Into(s: Template, t: Template): Template {
    if s.Tail? then t else Item(s.text, s.spec, s.flag, Into(s.rest, t))
  }

  predicate EndsInField(t: Template) {
    if t.Tail? then t.text == "" else EndsInField(t.rest)
  }

  lemma {:induction false} FilledInto(env: Env, msg: Msg, tm: Tm, o: Output, s: Template, t: Template)
    requires Simple(s) && EndsInField(s) && t.Valid()
    ensures Into(s, t).Valid() && (t.Bare() ==> Into(s, t).Bare())
    ensures Into(s, t).Fill(env, msg, tm, o) == t.Fill(env, msg, tm, Put(o, Texts(env, msg, tm, s)))
    decreases s
  {
    hide FieldText, Template.Fill, Put;
    if s.Tail? {
      PutNothing(o);
    } else {
      var text := FieldText(s.flag, env, msg, tm);
      FilledInto(env, msg, tm, Put(o, s.text + text), s.rest, t);
      FieldFilled(env, msg, tm, o, s.text, s.spec, s.flag, Into(s.rest, t));
      TextParts(o, s.text, text, Texts(env, msg, tm, s.rest));
    }
  }

  const MILLIS_AND_NAME := Then(".", 'e', Then("] [", 'n', Tail("")))
  const TIME_AND_NAME := Then(" ", 'H', Then(":", 'M', Then(":", 'S', MILLIS_AND_NAME)))
  const DATE_AND_NAME := Then("[", 'Y', Then("-", 'm', Then("-", 'd', TIME_AND_NAME)))
  const PLACE_AND_TEXT := Then("] [", 's', Then(":", '#', Then("] ", 'v', Tail(""))))
  const COLOURED := Then("] [", '^', Then("", 'l', Then("", '$', PLACE_AND_TEXT)))
  const FULL := Into(DATE_AND_NAME, COLOURED)

  /** The pattern in the comment on the full format, with the marks of the coloured range. */
  const FULL_PATTERN := "[%Y-%m-%d %H:%M:%S.%e] [%n" + "] [%^%l%$] [%s:%#] %v"

  lemma ClockTexts(env: Env, msg: Msg, tm: Tm, rest: Template)
    ensures Texts(env, msg, tm, Then(" ", 'H', Then(":", 'M', Then(":", 'S', rest)))) ==
            " " + Clock(tm.hour, tm) + Texts(env, msg, tm, rest)
  {
    hide Texts, Pad2;
    TextStep(env, msg, tm, " ", 'H', Then(":", 'M', Then(":", 'S', rest)));
    TextStep(env, msg, tm, ":", 'M', Then(":", 'S', rest));
    TextStep(env, msg, tm, ":", 'S', rest);
    ClockParts(Pad2(tm.hour), Pad2(tm.min), Pad2(tm.sec), Texts(env, msg, tm, rest));
  }

  lemma DateTexts(env: Env, msg: Msg, tm: Tm, rest: Template)
    ensures Texts(env, msg, tm, Then("[", 'Y', Then("-", 'm', Then("-", 'd', rest)))) ==
            "[" + DateText(tm) + Texts(env, msg, tm, rest)
  {
    hide Texts, Pad2, IntText;
    TextStep(env, msg, tm, "[", 'Y', Then("-", 'm', Then("-", 'd', rest)));
    TextStep(env, msg, tm, "-", 'm', Then("-", 'd', rest));
    TextStep(env, msg, tm, "-", 'd', rest);
    DatePieces(IntText(tm.year + 1900), Pad2(tm.mon + 1), Pad2(tm.mday), Texts(env, msg, tm, rest));
  }

  lemma PlainField(env: Env, msg: Msg, tm: Tm, c: char)
    requires c !in TIME_FLAGS
    ensures FieldText(c, env, msg, tm) == PlainText(c, env, msg)
  {
    hide PlainText, TimeText;
  }

  lemma MessageFields(env: Env, msg: Msg, tm: Tm)
    ensures FieldText('e', env, msg, tm) == PlainText('e', env, msg)
    ensures FieldText('s', env, msg, tm) == PlainText('s', env, msg)
    ensures FieldText('#', env, msg, tm) == PlainText('#', env, msg)
    ensures FieldText('n', env, msg, tm) == msg.loggerName && FieldText('v', env, msg, tm) == msg.payload
    ensures FieldText('l', env, msg, tm) == LevelName(msg.level)
  {
    hide FieldText, LevelName, IntText, Decimal, Pad3, PadUint, Fraction, SourceText;
    PlainField(env, msg, tm, 'e');
    PlainField(env, msg, tm, 's');
    PlainField(env, msg, tm, '#');
    PlainField(env, msg, tm, 'n');
    PlainField(env, msg, tm, 'v');
    PlainField(env, msg, tm, 'l');
  }

  lemma MillisAndName(env: Env, msg: Msg, tm: Tm)
    ensures Texts(env, msg, tm, Then(".", 'e', Then("] [", 'n', Tail("")))) ==
            "." + (PlainText('e', env, msg) + ("] [" + msg.loggerName))
  {
    hide Texts, PlainText, FieldText, Then;
    MessageFields(env, msg, tm);
    TextStep(env, msg, tm, ".", 'e', Then("] [", 'n', Tail("")));
    OneText(env, msg, tm, "] [", 'n');
  }

  lemma DateAndNameTexts(env: Env, msg: Msg, tm: Tm)
    ensures Texts(env, msg, tm, DATE_AND_NAME) == FullDate(tm) + PlainText('e', env, msg) + "] [" + msg.loggerName
  {
    hide Texts, Then, PlainText, Clock, DateText;
    var last := Then(".", 'e', Then("] [", 'n', Tail("")));
    DateTexts(env, msg, tm, Then(" ", 'H', Then(":", 'M', Then(":", 'S', last))));
    ClockTexts(env, msg, tm, last);
    MillisAndName(env, msg, tm);
    FullParts(DateText(tm), Clock(tm.hour, tm), PlainText('e', env, msg), msg.loggerName);
  }

  lemma ClockParts(h: string, m: string, s: string, rest: string)
    ensures " " + (h + (":" + (m + (":" + (s + rest))))) == " " + (h + ":" + m + ":" + s) + rest
  {}

  lemma DatePieces(y: string, m: string, d: string, rest: string)
    ensures "[" + (y + ("-" + (m + ("-" + (d + rest))))) == "[" + (y + "-" + m + "-" + d) + rest
  {}

  lemma FullParts(date: string, clock: string, millis: string, name: string)
    ensures "[" + date + (" " + clock + ("." + (millis + ("] [" + name)))) ==
            "[" + date + " " + clock + "." + millis + "] [" + name
  {}

  lemma PlaceAndTextTexts(env: Env, msg: Msg, tm: Tm)
    ensures Texts(env, msg, tm, PLACE_AND_TEXT) ==
            "] [" + PlainText('s', env, msg) + ":" + PlainText('#', env, msg) + "] " + msg.payload
  {
    hide Texts, PlainText, FieldText, Then;
    MessageFields(env, msg, tm);
    TextStep(env, msg, tm, "] [", 's', Then(":", '#', Then("] ", 'v', Tail(""))));
    TwoTexts(env, msg, tm, ":", '#', "] ", 'v');
    PlaceParts(PlainText('s', env, msg), PlainText('#', env, msg), msg.payload);
  }

  lemma PlaceParts(place: string, line: string, payload: string)
    ensures "] [" + (place + (":" + line + "] " + payload)) == "] [" + place + ":" + line + "] " + payload
    ensures "] [" + "" + ":" + "" + "] " + payload == "] [:] " + payload
  {}

  lemma SimpleThen(text: string, c: char, rest: Template)
    requires '%' !in text && (c in TIME_FLAGS || c in PLAIN_FLAGS) && Simple(rest)
    ensures Simple(Then(text, c, rest)) && EndsInField(Then(text, c, rest)) == EndsInField(rest)
  {
    hide Template.Fill, Template.Spelling, Template.Segments;
  }

  lemma SimpleEnd()
    ensures Simple(Tail("")) && EndsInField(Tail(""))
  {}

  lemma FullTemplate()
    ensures Simple(DATE_AND_NAME) && EndsInField(DATE_AND_NAME) && Simple(PLACE_AND_TEXT)
  {
    hide Simple, EndsInField, Then;
    SimpleEnd();
    var n := Then("] [", 'n', Tail(""));
    var e := Then(".", 'e', n);
    var s := Then(":", 'S', e);
    var m := Then(":", 'M', s);
    var h := Then(" ", 'H', m);
    var d := Then("-", 'd', h);
    SimpleThen("] [", 'n', Tail(""));
    SimpleThen(".", 'e', n);
    SimpleThen(":", 'S', e);
    SimpleThen(":", 'M', s);
    SimpleThen(" ", 'H', m);
    SimpleThen("-", 'd', h);
    SimpleThen("-", 'm', d);
    SimpleThen("[", 'Y', Then("-", 'm', d));
    SimpleThen("] ", 'v', Tail(""));
    SimpleThen(":", '#', Then("] ", 'v', Tail("")));
    SimpleThen("] [", 's', Then(":", '#', Then("] ", 'v', Tail(""))));
  }

  lemma MarkFilled(env: Env, msg: Msg, tm: Tm, o: Output, text: string, rest: Template)
    requires '%' !in text && rest.Valid()
    ensures Then(text, '^', rest).Valid() && Then(text, '$', rest).Valid()
    ensures rest.Bare() ==> Then(text, '^', rest).Bare() && Then(text, '$', rest).Bare()
    ensures Then(text, '^', rest).Fill(env, msg, tm, o) ==
            rest.Fill(env, msg, tm, Put(o, text).(colorStart := |o.text + text|))
    ensures Then(text, '$', rest).Fill(env, msg, tm, o) ==
            rest.Fill(env, msg, tm, Put(o, text).(colorEnd := |o.text + text|))
  {
    hide FieldText, PlainText, Laid;
  }

  /** The range between the marks is that of the level. */
  lemma ColouredFilled(env: Env, msg: Msg, tm: Tm, o: Output)
    ensures COLOURED.Valid() && COLOURED.Bare()
    ensures var level := o.text + "] [" + LevelName(msg.level);
            COLOURED.Fill(env, msg, tm, o) ==
            Output(level + Texts(env, msg, tm, PLACE_AND_TEXT), |o.text + "] ["|, |level|)
  {
    FullTemplate();
    var name := LevelName(msg.level);
    MessageFields(env, msg, tm);
    assert 'l' in PLAIN_FLAGS && BARE.Valid() && BARE.Stops('l');
    hide FieldText, PlainText, LevelName, Texts, FieldsOnly, Template.Fill;
    var stop := Then("", '$', PLACE_AND_TEXT);
    var start := Put(o, "] [").(colorStart := |o.text + "] ["|);
    MarkFilled(env, msg, tm, o, "] [", Then("", 'l', stop));
    FieldFilled(env, msg, tm, start, "", BARE, 'l', stop);
    assert "" + name == name;
    MarkFilled(env, msg, tm, Put(start, name), "", PLACE_AND_TEXT);
    PutNothing(Put(start, name));
    TextsFilled(env, msg, tm, Put(start, name).(colorEnd := |start.text + name|), PLACE_AND_TEXT);
  }

  /** The documented pattern of the full format, filled in. */
  lemma FullFilled(env: Env, msg: Msg, tm: Tm, o: Output)
    ensures FULL.Valid() && FULL.Bare()
    ensures var start := o.text + (FullDate(tm) + PlainText('e', env, msg) + "] [" + msg.loggerName) + "] [";
            var level := start + LevelName(msg.level);
            var place := "] [" + PlainText('s', env, msg) + ":" + PlainText('#', env, msg) + "] ";
            FULL.Fill(env, msg, tm, o) == Output(level + (place + msg.payload), |start|, |level|)
  {
    FullTemplate();
    var name := Texts(env, msg, tm, DATE_AND_NAME);
    ColouredFilled(env, msg, tm, Put(o, name));
    FilledInto(env, msg, tm, o, DATE_AND_NAME, COLOURED);
    DateAndNameTexts(env, msg, tm);
    PlaceAndTextTexts(env, msg, tm);
  }

  /** The full format, in the same pieces. */
  lemma FullShown(env: Env, now: int, msg: Msg, tm: Tm, o: Output)
    ensures ShowFlags(env, Compile(map[], now, "%+"), msg, tm, o) == Some(PutFull(env, FullDate(tm), msg, o))
  {
    hide ShowFlags, Compile, FullDate, PutFull;
    assert "%+" == "%" + ['+'];
    CompileOne(map[], now, '+');
    OneFlag(env, FullFlag(0, ""), msg, tm, o);
  }

  lemma FullParted(env: Env, date: string, msg: Msg, o: Output)
    ensures var start := o.text + (date + PlainText('e', env, msg) + "] [" + msg.loggerName) + "] [";
            var level := start + LevelName(msg.level);
            var place := "] [" + PlainText('s', env, msg) + ":" + PlainText('#', env, msg) + "] ";
            PutFull(env, date, msg, o) == Output(level + (place + msg.payload), |start|, |level|) <==>
            msg.loggerName != "" && !msg.source.Empty()
  {
    var millis := PlainText('e', env, msg);
    var start := o.text + (date + millis + "] [" + msg.loggerName) + "] [";
    var head := o.text + date + FullHead(msg);
    HeadParts(msg, o.text, date, millis);
    TailParts(env, msg);
    hide FullHead, FullTail, LevelName, PlainText;
    assert |head| == |start| <==> msg.loggerName != "";
    if msg.loggerName != "" {
      var level := start + LevelName(msg.level);
      var place := "] [" + PlainText('s', env, msg) + ":" + PlainText('#', env, msg) + "] ";
      assert PutFull(env, date, msg, o) == Output(level + FullTail(env, msg), |start|, |level|);
      assert |level + FullTail(env, msg)| == |level| + |FullTail(env, msg)|;
      assert |level + (place + msg.payload)| == |level| + |place + msg.payload|;
    }
  }

  lemma HeadParts(msg: Msg, text: string, date: string, millis: string)
    requires millis == Pad3(Fraction(msg.time, 1_000_000) % 0x1_0000_0000)
    ensures msg.loggerName != "" ==>
              text + date + FullHead(msg) == text + (date + millis + "] [" + msg.loggerName) + "] ["
    ensures msg.loggerName == "" ==>
              |text + date + FullHead(msg)| + 3 == |text + (date + millis + "] [" + msg.loggerName) + "] ["|
  {
    hide Pad3, Fraction;
    if msg.loggerName != "" {
      assert FullHead(msg) == millis + "] " + ("[" + msg.loggerName + "] ") + "[";
      NameParts(text, date, millis, msg.loggerName);
    }
  }

  lemma NameParts(text: string, date: string, millis: string, name: string)
    ensures text + date + (millis + "] " + ("[" + name + "] ") + "[") == text + (date + millis + "] [" + name) + "] ["
  {}

  lemma PlaceFields(env: Env, msg: Msg)
    ensures msg.source.Empty() ==> PlainText('s', env, msg) == "" && PlainText('#', env, msg) == ""
    ensures !msg.source.Empty() ==>
              && PlainText('s', env, msg) == Basename(env.folderSeps, msg.source.filename)
              && PlainText('#', env, msg) == IntText(msg.source.line)
  {
    hide Basename, IntText;
  }

  lemma TailParts(env: Env, msg: Msg)
    ensures var place := "] [" + PlainText('s', env, msg) + ":" + PlainText('#', env, msg) + "] ";
            if msg.source.Empty() then |FullTail(env, msg)| < |place + msg.payload|
            else FullTail(env, msg) == place + msg.payload
  {
    hide Basename, IntText, PlainText;
    PlaceFields(env, msg);
    if !msg.source.Empty() {
      PlaceInTail(Basename(env.folderSeps, msg.source.filename), IntText(msg.source.line), msg.payload);
    }
  }

  lemma PlaceInTail(file: string, line: string, payload: string)
    ensures "] " + ("[" + file + ":" + line + "] ") + payload == "] [" + file + ":" + line + "] " + payload
  {}

  // ---------------------------------------------------------------- the theorem

  lemma ThenSpelled(text: string, c: char, rest: Template)
    ensures Then(text, c, rest).Spelling() == text + ("%" + [c] + rest.Spelling())
  {
    BareText();
    hide Spec.Text;
    assert "%" + "" + [c] == "%" + [c];
  }

  /** Three items in front of a template. */
  lemma ThreeSpelled(x: string, c: char, y: string, d: char, z: string, e: char, rest: Template, more: string)
    requires rest.Spelling() == more
    ensures Then(x, c, Then(y, d, Then(z, e, rest))).Spelling() ==
            x + ("%" + [c] + (y + ("%" + [d] + (z + ("%" + [e] + more)))))
  {
    hide Template.Spelling, Then;
    ThenSpelled(z, e, rest);
    ThenSpelled(y, d, Then(z, e, rest));
    ThenSpelled(x, c, Then(y, d, Then(z, e, rest)));
  }

  lemma {:induction false} IntoSpelled(s: Template, t: Template, ss: string)
    requires EndsInField(s) && s.Spelling() == ss
    ensures Into(s, t).Spelling() == ss + t.Spelling()
    decreases s
  {
    hide Spec.Text;
    if s.Item? {
      IntoSpelled(s.rest, t, s.rest.Spelling());
      SpelledParts(s.text, "%" + s.spec.Text() + [s.flag], s.rest.Spelling(), t.Spelling());
    } else {
      assert "" + t.Spelling() == t.Spelling();
    }
  }

  lemma SpelledParts(a: string, b: string, c: string, d: string)
    ensures a + (b + (c + d)) == a + (b + c) + d
  {}

  lemma DateSpelled(rest: Template, more: string)
    requires rest.Spelling() == more
    ensures Then("[", 'Y', Then("-", 'm', Then("-", 'd', rest))).Spelling() == "[%Y-%m-%d" + more
  {
    hide Then, Template.Spelling;
    ThreeSpelled("[", 'Y', "-", 'm', "-", 'd', rest, more);
  }

  lemma TimeSpelled(rest: Template, more: string)
    requires rest.Spelling() == more
    ensures Then(" ", 'H', Then(":", 'M', Then(":", 'S', rest))).Spelling() == " %H:%M:%S" + more
  {
    hide Then, Template.Spelling;
    ThreeSpelled(" ", 'H', ":", 'M', ":", 'S', rest, more);
  }

  lemma ColourSpelled(rest: Template, more: string)
    requires rest.Spelling() == more
    ensures Then("] [", '^', Then("", 'l', Then("", '$', rest))).Spelling() == "] [%^%l%$" + more
  {
    hide Then, Template.Spelling;
    ThreeSpelled("] [", '^', "", 'l', "", '$', rest, more);
  }

  lemma EndsSpelled()
    ensures MILLIS_AND_NAME.Spelling() == ".%e] [%n" && PLACE_AND_TEXT.Spelling() == "] [%s:%#] %v"
  {
    BareText();
    hide Spec.Text;
    assert ".%e] [%n" == "." + ("%" + "" + "e" + ("] [" + ("%" + "" + "n" + "")));
    assert "] [%s:%#] %v" == "] [" + ("%" + "" + "s" + (":" + ("%" + "" + "#" + ("] " + ("%" + "" + "v" + "")))));
  }

  lemma DateAndNameSpelled()
    ensures DATE_AND_NAME.Spelling() == "[%Y-%m-%d" + (" %H:%M:%S" + ".%e] [%n")
  {
    hide Then, Template.Spelling;
    EndsSpelled();
    TimeSpelled(MILLIS_AND_NAME, ".%e] [%n");
    DateSpelled(TIME_AND_NAME, " %H:%M:%S" + ".%e] [%n");
  }

  lemma ColouredSpelled()
    ensures COLOURED.Spelling() == "] [%^%l%$" + "] [%s:%#] %v"
  {
    hide Then, Template.Spelling;
    EndsSpelled();
    ColourSpelled(PLACE_AND_TEXT, "] [%s:%#] %v");
  }

  lemma FullPatternParts()
    ensures "[%Y-%m-%d" + (" %H:%M:%S" + ".%e] [%n") + ("] [%^%l%$" + "] [%s:%#] %v") == FULL_PATTERN
  {
    FirstHalf();
    assert "] [%^%l%$" + "] [%s:%#] %v" == "] [%^%l%$] [%s:%#] %v";
  }

  lemma FirstHalf()
    ensures "[%Y-%m-%d" + (" %H:%M:%S" + ".%e] [%n") == "[%Y-%m-%d %H:%M:%S.%e] [%n"
  {}

  lemma FullSpelled()
    ensures FULL.Spelling() == FULL_PATTERN
  {
    FullTemplate();
    hide Template.Spelling, Into, Simple, EndsInField, Then;
    DateAndNameSpelled();
    ColouredSpelled();
    FullPatternParts();
    IntoSpelled(DATE_AND_NAME, COLOURED, DATE_AND_NAME.Spelling());
  }

  /** One message: the full format against the pattern of its comment. */
  lemma FullIsPatternShown(env: Env, now: int, msg: Msg, tm: Tm, o: Output)
    ensures ShowFlags(env, Compile(map[], now, "%+"), msg, tm, o) ==
            ShowFlags(env, Compile(map[], now, FULL_PATTERN), msg, tm, o) <==>
            msg.loggerName != "" && !msg.source.Empty()
  {
    hide ShowFlags, Compile, AllTruthful, Template.Fill, Template.Spelling, Template.Segments, PutFull;
    FullFilled(env, msg, tm, o);
    TemplateWritten(env, msg, tm, o, FULL);
    TemplateShows(env, now, msg, tm, o, FULL);
    FullSpelled();
    FullShown(env, now, msg, tm, o);
    FullParted(env, FullDate(tm), msg, o);
  }

  /**
   The full format prints a message, colours included, like the pattern in its
   comment exactly if the message has a logger name and a source location.
   */
  lemma FullIsPatternExactly(env: Env, msg: Msg)
    ensures Alike(env, "%+", FULL_PATTERN, msg) <==> msg.loggerName != "" && msg.source.line != 0
  {
    hide ShowFlags, Compile;
    forall now, tm, o
      ensures ShowFlags(env, Compile(map[], now, "%+"), msg, tm, o) ==
              ShowFlags(env, Compile(map[], now, FULL_PATTERN), msg, tm, o) <==>
              msg.loggerName != "" && !msg.source.Empty()
    {
      FullIsPatternShown(env, now, msg, tm, o);
    }
    var o := Output("", 0, 0);
    assert Alike(env, "%+", FULL_PATTERN, msg) ==>
             ShowFlags(env, Compile(map[], 0, "%+"), msg, ZERO_TM, o) ==
             ShowFlags(env, Compile(map[], 0, FULL_PATTERN), msg, ZERO_TM, o);
  }

  // ------------------------------------------------------------------ whole runs

  /** The two formatters differ in their pattern and its flags at most, and print the messages to come alike. */
  ghost predicate RunAlike(env: Env, a: State, b: State, es: seq<Event>) {
    && b == a.(pattern := b.pattern, flags := b.flags)
    && FlagsGood(a) && FlagsGood(b) && HistoryFree(a.flags) && HistoryFree(b.flags)
    && forall e, tm, o | e in es && e.Log? ::
         ShowFlags(env, FreshAll(a.flags), e.msg, tm, o) == ShowFlags(env, FreshAll(b.flags), e.msg, tm, o)
  }

  lemma LogAlike(env: Env, a: State, b: State, e: Event, es: seq<Event>)
    requires e.Log? && RunAlike(env, a, b, [e] + es)
    ensures var l, m := Format(env, a, e.msg, e.dest), Format(env, b, e.msg, e.dest);
            l.Some? == m.Some? &&
            (l.Some? ==> l.value.out == m.value.out && RunAlike(env, l.value.state, m.value.state, es))
  {
    hide Format, ShowFlags, FlagsGood, HistoryFree;
    FormatAsFresh(env, a, e.msg, e.dest);
    FormatAsFresh(env, b, e.msg, e.dest);
    var tm := Refresh(env, a, e.msg).cachedTm;
    assert e in [e] + es;
    assert ShowFlags(env, FreshAll(a.flags), e.msg, tm, e.dest) == ShowFlags(env, FreshAll(b.flags), e.msg, tm, e.dest);
    if Format(env, a, e.msg, e.dest).Some? {
      var a', b' := Format(env, a, e.msg, e.dest).value.state, Format(env, b, e.msg, e.dest).value.state;
      HistoryFreeFresh(a.flags);
      HistoryFreeFresh(b.flags);
      HistoryFreeFresh(a'.flags);
      HistoryFreeFresh(b'.flags);
      assert FreshAll(a'.flags) == FreshAll(a.flags) && FreshAll(b'.flags) == FreshAll(b.flags);
    }
  }

  /** Over any run, behind a new pattern included, and whatever the caches hold. */
  lemma {:induction false} RunsAlike(env: Env, a: State, b: State, es: seq<Event>)
    requires RunAlike(env, a, b, es)
    ensures Run(env, a, es) == Run(env, b, es)
    decreases |es|
  {
    hide Format, ShowFlags, FlagsGood, HistoryFree;
    if es != [] {
      var e, rest := es[0], es[1..];
      assert es == [e] + rest;
      if e.Log? {
        LogAlike(env, a, b, e, rest);
        var l, m := Format(env, a, e.msg, e.dest), Format(env, b, e.msg, e.dest);
        if l.Some? { RunsAlike(env, l.value.state, m.value.state, rest); }
      } else if e.SetPattern? {
        assert Configure(a, e) == Configure(b, e);
      } else {
        ConfigureDates(a, e);
        ConfigureDates(b, e);
        RunsAlike(env, Configure(a, e), Configure(b, e), rest);
      }
    }
  }

  /**
   A formatter for one pattern prints every run as one for the other, if they
   print each of its messages alike and both ask for the time or neither does.
   */
  lemma PatternsRunAlike(env: Env, p: string, q: string, now: int, timeType: TimeType, eol: string, es: seq<Event>)
    requires HistoryFree(Compile(map[], now, p)) && HistoryFree(Compile(map[], now, q))
    requires PatternNeeds(map[], p) == PatternNeeds(map[], q)
    requires forall e | e in es && e.Log? :: Alike(env, p, q, e.msg)
    ensures Run(env, NewState(now, p, timeType, eol, map[]), es) == Run(env, NewState(now, q, timeType, eol, map[]), es)
  {
    hide Compile, PatternNeeds, ShowFlags, Run, HistoryFree;
    var a, b := NewState(now, p, timeType, eol, map[]), NewState(now, q, timeType, eol, map[]);
    NewStateGood(env, now, p, timeType, eol, map[]);
    NewStateGood(env, now, q, timeType, eol, map[]);
    CompileFresh(map[], now, p);
    CompileFresh(map[], now, q);
    forall e, tm, o | e in es && e.Log?
      ensures ShowFlags(env, FreshAll(a.flags), e.msg, tm, o) == ShowFlags(env, FreshAll(b.flags), e.msg, tm, o)
    {
      assert Alike(env, p, q, e.msg);
    }
    RunsAlike(env, a, b, es);
  }

  /** Some flag of the template prints by the time. */
  predicate Timed(t: Template) {
    t.Item? && (t.flag in TIME_FLAGS || Timed(t.rest))
  }

  lemma {:induction false} TemplateNeeds(t: Template)
    requires t.Valid()
    ensures AnyNeeds(map[], t.Segments()) == Timed(t)
    decreases t
  {
    hide Spec.Stops;
    if t.Item? {
      var x := Placeholder(t.spec, t.flag);
      AnyNeedsPieces(map[], t.text, x, t.rest.Segments());
      TemplateNeeds(t.rest);
    }
  }

  lemma TemplateConfig(env: Env, now: int, t: Template)
    requires t.Valid()
    ensures HistoryFree(Compile(map[], now, t.Spelling())) && PatternNeeds(map[], t.Spelling()) == Timed(t)
  {
    hide Compile, HistoryFree, AnyNeeds, Template.Fill, Template.Spelling, Template.Segments, WrittenAll, AllTruthful;
    TemplateSegments(t);
    TemplateWritten(env, Msg("", Info, 0, 0, Source("", 0, ""), ""), ZERO_TM, Output("", 0, 0), t);
    TemplateNeeds(t);
    CompiledHistoryFree(map[], now, t.Spelling());
  }

  lemma FullConfig(now: int)
    ensures HistoryFree(Compile(map[], now, "%+")) && PatternNeeds(map[], "%+")
  {
    hide Compile, PatternNeeds;
    assert "%+" == "%" + ['+'];
    CompileOne(map[], now, '+');
  }

  /**
   Over every run of messages with logger names and source locations the full
   format, with its cached dates, prints what the pattern in its comment prints.
   */
  lemma FullRunsAlike(env: Env, now: int, timeType: TimeType, eol: string, es: seq<Event>)
    requires forall e | e in es && e.Log? :: e.msg.loggerName != "" && e.msg.source.line != 0
    ensures Run(env, NewState(now, "%+", timeType, eol, map[]), es) ==
            Run(env, NewState(now, FULL_PATTERN, timeType, eol, map[]), es)
  {
    hide Run, NewState, Alike, HistoryFree, Compile, PatternNeeds, Template.Spelling;
    FullConfig(now);
    FullFilled(env, MessageAt(0), ZERO_TM, Output("", 0, 0));
    TemplateConfig(env, now, FULL);
    FullTimed();
    FullSpelled();
    forall e | e in es && e.Log? ensures Alike(env, "%+", FULL_PATTERN, e.msg) {
      FullIsPatternExactly(env, e.msg);
    }
    PatternsRunAlike(env, "%+", FULL_PATTERN, now, timeType, eol, es);
  }

  lemma FullTimed()
    ensures Timed(FULL)
  {}

  /** The pairs of patterns that the comments of the code call equivalent. */
  ghost predicate Equivalent(p: string, q: string) {
    || (p == "%R" && q == "%H:%M")
    || (p in {"%T", "%X"} && q == "%H:%M:%S")
    || (p == "%r" && q == "%I:%M:%S %p")
    || (p in {"%D", "%x"} && q == "%m/%d/%C")
  }

  /** Over every run too. */
  lemma TimeRunsAlike(env: Env, p: string, q: string, now: int, timeType: TimeType, eol: string, es: seq<Event>)
    requires Equivalent(p, q)
    ensures Run(env, NewState(now, p, timeType, eol, map[]), es) == Run(env, NewState(now, q, timeType, eol, map[]), es)
  {
    hide Run, NewState, Alike, HistoryFree, Compile, PatternNeeds, Template.Spelling;
    EquivalentConfig(env, now, p, q);
    forall e | e in es && e.Log? ensures Alike(env, p, q, e.msg) {
      TimePatternsAlike(env, e.msg);
    }
    PatternsRunAlike(env, p, q, now, timeType, eol, es);
  }

  lemma EquivalentConfig(env: Env, now: int, p: string, q: string)
    requires Equivalent(p, q)
    ensures HistoryFree(Compile(map[], now, p)) && HistoryFree(Compile(map[], now, q))
    ensures PatternNeeds(map[], p) && PatternNeeds(map[], q)
  {
    hide HistoryFree, Compile, PatternNeeds, Template.Spelling;
    Spellings();
    EquivalentTemplates();
    TemplateConfig(env, now, HOUR_MINUTE);
    TemplateConfig(env, now, ISO_TIME);
    TemplateConfig(env, now, TWELVE_HOURS);
    TemplateConfig(env, now, SHORT_DATE);
    assert p == "%" + [p[1]];
    OnlySpelled(p[1]);
    OnlyTimed(p[1]);
    TemplateConfig(env, now, Only(p[1]));
  }

  lemma OnlyTimed(c: char)
    requires c in TIME_FLAGS
    ensures Only(c).Valid() && Timed(Only(c))
  {}

  lemma EquivalentTemplates()
    ensures HOUR_MINUTE.Valid() && ISO_TIME.Valid() && TWELVE_HOURS.Valid() && SHORT_DATE.Valid()
    ensures Timed(HOUR_MINUTE) && Timed(ISO_TIME) && Timed(TWELVE_HOURS) && Timed(SHORT_DATE)
  {}

  // ------------------------------------------------- a mark without a known flag

  /** A formatter for a template, in its first message. */
  lemma TemplateRun(env: Env, now: int, t: Template, timeType: TimeType, eol: string, msg: Msg, o: Output)
    requires t.Valid() && (Timed(t) ==> Secs(msg.time) != 0)
    requires AllTruthful(env, map[], msg, TimeOf(env, timeType, msg), t.Segments())
    ensures Run(env, NewState(now, t.Spelling(), timeType, eol, map[]), [Log(msg, o)]) ==
            Some([Put(t.Fill(env, msg, TimeOf(env, timeType, msg), o), eol)])
  {
    hide Run, Compile, PatternNeeds, AllTruthful, WrittenAll, Timed;
    hide Template.Valid, Template.Fill, Template.Spelling, Template.Segments;
    var es := [Log(msg, o)];
    TemplateSegments(t);
    TemplateConfig(env, now, t);
    TemplateWritten(env, msg, TimeOf(env, timeType, msg), o, t);
    assert es[1..] == [];
    RunWritten(env, now, t.Spelling(), timeType, eol, map[], es);
    var lines := Lines(env, map[], timeType, eol, t.Segments(), es);
    assert lines == [lines[0]];
  }

  /** A single field with a spec. */
  function Single(spec: Spec, c: char): Template {
    Item("", spec, c, Tail(""))
  }

  lemma SingleValid(spec: Spec, c: char)
    requires spec.Valid() && spec.Stops(c) && (c in TIME_FLAGS || c in PLAIN_FLAGS)
    ensures Single(spec, c).Valid() && Single(spec, c).rest.Bare()
    ensures Single(spec, c).Spelling() == "%" + spec.Text() + [c]
  {
    hide Spec.Text, Spec.Stops, Spec.Valid;
    assert "" + ("%" + spec.Text() + [c] + "") == "%" + spec.Text() + [c];
  }

  lemma SingleFilled(env: Env, spec: Spec, c: char, msg: Msg, tm: Tm, o: Output)
    requires Single(spec, c).Valid() && (c in TIME_FLAGS || c in PLAIN_FLAGS)
    ensures Single(spec, c).Fill(env, msg, tm, o) == Put(o, Laid(spec, FieldText(c, env, msg, tm)))
  {
    hide FieldText, Laid;
    PutNothing(o);
    PutNothing(Put(o, Laid(spec, FieldText(c, env, msg, tm))));
  }

  /**
   A padded field by itself: what is written is the text of the field as its spec
   lays it out, filled up or cut, at the time of the message.
   */
  lemma PaddedFieldRun(env: Env, now: int, spec: Spec, c: char, timeType: TimeType, eol: string, msg: Msg, o: Output)
    requires spec.Valid() && spec.Stops(c) && (c in TIME_FLAGS || c in PLAIN_FLAGS)
    requires Secs(msg.time) != 0
    requires var tm := TimeOf(env, timeType, msg);
             spec.digits != "" ==> Declared(c, env, msg, tm) == |FieldText(c, env, msg, tm)|
    ensures Run(env, NewState(now, "%" + spec.Text() + [c], timeType, eol, map[]), [Log(msg, o)]) ==
            Some([Put(o, Laid(spec, FieldText(c, env, msg, TimeOf(env, timeType, msg))) + eol)])
  {
    hide Run, NewState, AllTruthful, Declared, FieldText, Laid, Single, Secs, TimeOf, Spec.Valid, Spec.Stops, Spec.Text;
    hide Template.Valid, Template.Bare, Template.Fill, Template.Spelling, Timed;
    var tm := TimeOf(env, timeType, msg);
    SingleValid(spec, c);
    SingleTruthful(env, spec, c, msg, tm);
    TemplateRun(env, now, Single(spec, c), timeType, eol, msg, o);
    SingleFilled(env, spec, c, msg, tm, o);
    PutTwice(o, Laid(spec, FieldText(c, env, msg, tm)), eol);
  }

  lemma SingleTruthful(env: Env, spec: Spec, c: char, msg: Msg, tm: Tm)
    requires Single(spec, c).Valid() && Single(spec, c).rest.Bare()
    requires spec.digits != "" ==> Declared(c, env, msg, tm) == |FieldText(c, env, msg, tm)|
    ensures AllTruthful(env, map[], msg, tm, Single(spec, c).Segments())
  {
    hide Declared, FieldText, AllTruthful, Template.Valid, Template.Bare, Template.Segments;
    TruthfulItem(env, msg, tm, Single(spec, c));
  }

  lemma BareFieldRun(env: Env, now: int, c: char, timeType: TimeType, eol: string, msg: Msg, o: Output)
    requires BARE.Stops(c) && (c in TIME_FLAGS || c in PLAIN_FLAGS) && Secs(msg.time) != 0
    ensures Run(env, NewState(now, "%" + [c], timeType, eol, map[]), [Log(msg, o)]) ==
            Some([Put(o, FieldText(c, env, msg, TimeOf(env, timeType, msg)) + eol)])
  {
    hide Run, NewState, FieldText, Declared, Secs, TimeOf, Spec.Stops;
    BareText();
    hide Spec.Text;
    assert "%" + "" + [c] == "%" + [c];
    PaddedFieldRun(env, now, BARE, c, timeType, eol, msg, o);
  }

  lemma TimeFlagIs(c: char)
    requires c in "aAbhBcCYDxmdHIMSprRTX"
    ensures c in TIME_FLAGS && BARE.Stops(c)
  {}

  lemma PlainFlagIs(c: char)
    requires c in "nlLtvefFEP@sg#!"
    ensures c in PLAIN_FLAGS && c !in TIME_FLAGS && BARE.Stops(c)
  {
    PlainFlagIsListed(c);
    PlainFlagIsNoTime(c);
    PlainFlagStops(c);
  }

  lemma PlainFlagIsNoTime(c: char)
    requires c in "nlLtvefFEP@sg#!"
    ensures c !in TIME_FLAGS
  {
    if c in {'n', 'l', 'L', 't', 'v', 'e', 'f'} { MessageFlagIsNoTime(c); } else { OtherFlagIsNoTime(c); }
  }

  lemma MessageFlagIsNoTime(c: char)
    requires c in {'n', 'l', 'L', 't', 'v', 'e', 'f'}
    ensures c !in TIME_FLAGS
  {}

  lemma OtherFlagIsNoTime(c: char)
    requires c in {'F', 'E', 'P', '@', 's', 'g', '#', '!'}
    ensures c !in TIME_FLAGS
  {}

  lemma PlainFlagStops(c: char)
    requires c in "nlLtvefFEP@sg#!"
    ensures BARE.Stops(c)
  {}

  lemma PlainFlagIsListed(c: char)
    requires c in "nlLtvefFEP@sg#!"
    ensures c in PLAIN_FLAGS
  {}

  /** Every flag of a time field, by itself, prints its part of the time of the message. */
  lemma TimeFlagRuns(env: Env, now: int, c: char, timeType: TimeType, eol: string, msg: Msg, o: Output)
    requires c in "aAbhBcCYDxmdHIMSprRTX" && Secs(msg.time) != 0
    ensures Run(env, NewState(now, "%" + [c], timeType, eol, map[]), [Log(msg, o)]) ==
            Some([Put(o, TimeText(c, TimeOf(env, timeType, msg)) + eol)])
  {
    hide Run, NewState, TimeText, PlainText, Secs, TimeOf, Spec.Stops;
    TimeFlagIs(c);
    BareFieldRun(env, now, c, timeType, eol, msg, o);
  }

  /** Every other field flag, by itself, prints its part of the message or the process. */
  lemma PlainFlagRuns(env: Env, now: int, c: char, timeType: TimeType, eol: string, msg: Msg, o: Output)
    requires c in "nlLtvefFEP@sg#!" && Secs(msg.time) != 0
    ensures Run(env, NewState(now, "%" + [c], timeType, eol, map[]), [Log(msg, o)]) ==
            Some([Put(o, PlainText(c, env, msg) + eol)])
  {
    hide Run, NewState, Secs, TimeOf, Spec.Stops, FieldText;
    PlainFlagIs(c);
    PlainField(env, msg, TimeOf(env, timeType, msg), c);
    hide PlainText;
    BareFieldRun(env, now, c, timeType, eol, msg, o);
  }

  const TEN := Spec(None, "10", true)
  const THREE := Spec(None, "3", true)
  const UNCUT_NAME := Item("[", TEN, ']', Then(" ", 'v', Tail("")))
  const CUT_NAME := Item("[", THREE, '!', Then("] ", 'v', Tail("")))

  lemma NamesLaid()
    ensures TEN.Valid() && THREE.Valid()
    ensures Laid(TEN.(bang := false), "main") == "      main" && Laid(THREE, "main") == "mai"
  {
    assert Value("10"[..1]) == 1 && "10"[..1] == "1" && Value("3"[..0]) == 0;
    assert Value("10") == 10 && Value("3") == 3;
    assert Spaces(6) == "      ";
  }

  lemma TruthfulItem(env: Env, msg: Msg, tm: Tm, t: Template)
    requires t.Valid() && t.Item? && t.rest.Bare() && Truthful(env, map[], msg, tm, Placeholder(t.spec, t.flag))
    ensures AllTruthful(env, map[], msg, tm, t.Segments())
  {
    hide Truthful, Spec.Stops;
    TemplateWritten(env, msg, tm, Output("", 0, 0), t.rest);
    var x := Placeholder(t.spec, t.flag);
    forall y | y in t.Segments() ensures Truthful(env, map[], msg, tm, y) {
      assert y in Pending(t.text) || y == x || y in t.rest.Segments();
      if y in Pending(t.text) { LiteralIsTruthful(env, msg, tm, y); }
    }
  }

  lemma LiteralIsTruthful(env: Env, msg: Msg, tm: Tm, x: Segment)
    requires x.Literal?
    ensures Truthful(env, map[], msg, tm, x)
  {}

  lemma UncutValid()
    ensures UNCUT_NAME.Valid() && !Timed(UNCUT_NAME) && UNCUT_NAME.rest.Bare()
  {
    assert TEN.Valid() && TEN.Stops(']');
    PayloadTemplates();
  }

  lemma CutValid()
    ensures CUT_NAME.Valid() && !Timed(CUT_NAME) && CUT_NAME.rest.Bare()
  {
    assert THREE.Valid() && THREE.Stops('!');
    PayloadTemplates();
  }

  lemma NamesValid()
    ensures UNCUT_NAME.Valid() && CUT_NAME.Valid() && !Timed(UNCUT_NAME) && !Timed(CUT_NAME)
    ensures UNCUT_NAME.rest.Bare() && CUT_NAME.rest.Bare()
    ensures ']' !in TIME_FLAGS && ']' !in PLAIN_FLAGS && '!' !in TIME_FLAGS
  {
    hide Template.Valid, Template.Bare, Timed;
    UncutValid();
    CutValid();
  }

  lemma PayloadTemplates()
    ensures forall text | text in {" ", "] "} ::
              var t := Then(text, 'v', Tail("")); t.Valid() && t.Bare() && !Timed(t)
  {}

  lemma NameTemplates(env: Env, msg: Msg, tm: Tm)
    ensures UNCUT_NAME.Valid() && CUT_NAME.Valid() && !Timed(UNCUT_NAME) && !Timed(CUT_NAME)
    ensures AllTruthful(env, map[], msg, tm, UNCUT_NAME.Segments())
    ensures AllTruthful(env, map[], msg, tm, CUT_NAME.Segments())
  {
    NamesValid();
    FunctionNameIsTrue(env, msg, tm);
    hide Declared, FieldText, Template.Valid, Template.Bare, Timed, AllTruthful, Template.Segments;
    TruthfulItem(env, msg, tm, UNCUT_NAME);
    TruthfulItem(env, msg, tm, CUT_NAME);
  }

  lemma SpecTexts()
    ensures TEN.Text() == "10!" && THREE.Text() == "3!"
  {}

  lemma PayloadSpelled(text: string)
    ensures Then(text, 'v', Tail("")).Spelling() == text + "%v"
  {
    BareText();
    hide Spec.Text;
    assert "%" + "" + ['v'] + "" == "%v";
  }

  lemma NamesSpelled()
    ensures UNCUT_NAME.Spelling() == "[%10!] %v" && CUT_NAME.Spelling() == "[%3!!] %v"
  {
    SpecTexts();
    hide Spec.Text, Then;
    PayloadSpelled(" ");
    PayloadSpelled("] ");
    assert "[" + ("%" + "10!" + [']'] + (" " + "%v")) == "[%10!] %v";
    assert "[" + ("%" + "3!" + ['!'] + ("] " + "%v")) == "[%3!!] %v";
  }

  lemma LastField(env: Env, msg: Msg, tm: Tm, o: Output, text: string)
    requires '%' !in text
    ensures Then(text, 'v', Tail("")).Valid()
    ensures Then(text, 'v', Tail("")).Fill(env, msg, tm, o) == Put(o, text + msg.payload)
  {
    MessageFields(env, msg, tm);
    hide FieldText;
    FieldFilled(env, msg, tm, o, text, BARE, 'v', Tail(""));
    PutNothing(Put(o, text + msg.payload));
  }

  lemma UncutFilled(env: Env, msg: Msg, tm: Tm)
    requires msg.source.funcname == "main" && !msg.source.Empty()
    ensures UNCUT_NAME.Valid()
    ensures UNCUT_NAME.Fill(env, msg, tm, Output("", 0, 0)) == Output("[      main] " + msg.payload, 0, 0)
  {
    NamesValid();
    NamesLaid();
    FunctionName(env, msg, tm);
    LastField(env, msg, tm, Output("[      main]", 0, 0), " ");
    hide FieldText, PlainText, Laid, Template.Valid;
    assert "" + "[" + ("      main" + "]") == "[      main]";
    assert "[      main]" + (" " + msg.payload) == "[      main] " + msg.payload;
  }

  lemma CutFilled(env: Env, msg: Msg, tm: Tm)
    requires msg.source.funcname == "main" && !msg.source.Empty()
    ensures CUT_NAME.Valid()
    ensures CUT_NAME.Fill(env, msg, tm, Output("", 0, 0)) == Output("[mai] " + msg.payload, 0, 0)
  {
    NamesValid();
    NamesLaid();
    FunctionName(env, msg, tm);
    LastField(env, msg, tm, Output("[mai", 0, 0), "] ");
    hide FieldText, PlainText, Laid, Template.Valid;
    assert '!' in PLAIN_FLAGS && "" + "[" + "mai" == "[mai";
    assert "[mai" + ("] " + msg.payload) == "[mai] " + msg.payload;
  }

  lemma FunctionName(env: Env, msg: Msg, tm: Tm)
    requires !msg.source.Empty()
    ensures PlainText('!', env, msg) == msg.source.funcname && FieldText('!', env, msg, tm) == msg.source.funcname
  {
    PlainField(env, msg, tm, '!');
  }

  /**
   The examples of the code for the mark in front of something that is no flag:
   the name of the function is filled up to the width but not cut, and the
   character behind the mark follows; the mark twice is the flag for the name.
   */
  lemma FunctionNameExamples(env: Env, now: int, timeType: TimeType, eol: string, msg: Msg)
    requires msg.source.funcname == "main" && !msg.source.Empty() && msg.payload == "some message"
    ensures Run(env, NewState(now, "[%10!] %v", timeType, eol, map[]), [Log(msg, Output("", 0, 0))]) ==
            Some([Output("[      main] some message" + eol, 0, 0)])
    ensures Run(env, NewState(now, "[%3!!] %v", timeType, eol, map[]), [Log(msg, Output("", 0, 0))]) ==
            Some([Output("[mai] some message" + eol, 0, 0)])
  {
    hide Run, NewState, AllTruthful, Template.Fill, Template.Spelling, Template.Segments, Timed, TimeOf, Template.Valid;
    var o, tm := Output("", 0, 0), TimeOf(env, timeType, msg);
    NamesJoined();
    NameTemplates(env, msg, tm);
    NamesSpelled();
    UncutFilled(env, msg, tm);
    CutFilled(env, msg, tm);
    TemplateRun(env, now, UNCUT_NAME, timeType, eol, msg, o);
    TemplateRun(env, now, CUT_NAME, timeType, eol, msg, o);
  }

  lemma NamesJoined()
    ensures "[      main] " + "some message" == "[      main] some message"
    ensures "[mai] " + "some message" == "[mai] some message"
  {}
}
