/**
 The caches of the pattern formatter do not show: over whole runs it prints
 what a formatter without caches prints. Escaping a text for a pattern prints
 the text.
 */
module FormatterTheorems {
  import opened Wrappers
  import opened Padding
  import opened LogFields
  import opened PatternGrammar
  import opened FormatterModel

  function FreshAll(fs: seq<Flag>): (r: seq<Flag>)
    ensures |r| == |fs|
  {
    if fs == [] then [] else [fs[0].Fresh()] + FreshAll(fs[1..])
  }

  /** A formatter without the contents of its caches. */
  function Config(st: State): State {
    st.(cachedTm := ZERO_TM, lastLogSecs := 0, flags := FreshAll(st.flags))
  }

  /** The cached time is the time of the cached second. */
  predicate Warm(env: Env, st: State) {
    st.cachedTm == env.Time(st.timeType, st.lastLogSecs)
  }

  /** No time was looked up yet. */
  predicate Cold(st: State) {
    st.lastLogSecs == 0 && st.cachedTm == ZERO_TM
  }

  /** A cached date is that of the cached second, and a flag that reads the time is a reason to look it up. */
  predicate FlagGood(st: State, f: Flag) {
    && (f.FullFlag? && f.date != "" ==> f.stamp == st.lastLogSecs && f.date == FullDate(st.cachedTm))
    && (f.ReadsTime() ==> st.needLocaltime)
  }

  ghost predicate FlagsGood(st: State) {
    forall f | f in st.flags :: FlagGood(st, f)
  }

  /** What every formatter keeps while nobody overrides its need for the time. */
  ghost predicate Good(env: Env, st: State) {
    (Warm(env, st) || Cold(st)) && FlagsGood(st)
  }

  ghost predicate HistoryFree(fs: seq<Flag>) {
    forall f | f in fs :: !f.HistoryDependent()
  }

  /** No pattern of the run has a flag that depends on the messages before. */
  ghost predicate HistoryFreeRun(st: State, es: seq<Event>)
    decreases |es|
  {
    HistoryFree(st.flags) && (es != [] ==> HistoryFreeRun(Configure(st, es[0]), es[1..]))
  }

  /** The first message that needs the time does not fall in second zero. */
  predicate FirstTimed(st: State, es: seq<Event>)
    decreases |es|
  {
    if es == [] then true
    else if es[0].Log? && st.needLocaltime then Secs(es[0].msg.time) != 0
    else FirstTimed(Configure(st, es[0]), es[1..])
  }

  // ------------------------------------------------------------------ one flag

  /** A date that is cached for the second of the message is the rendering of the time at hand. */
  predicate DateFits(f: Flag, secs: int, tm: Tm) {
    f.FullFlag? && f.date != "" && f.stamp == secs ==> f.date == FullDate(tm)
  }

  /** The date that is cached behind the message. */
  predicate DateIs(f: Flag, secs: int, tm: Tm) {
    f.FullFlag? ==> f.stamp == secs && f.date == FullDate(tm)
  }

  /** A flag whose cached date fits prints as with an empty cache. */
  lemma FlagTransparent(env: Env, f: Flag, msg: Msg, tm: Tm, o: Output)
    requires DateFits(f, Secs(msg.time), tm) && !f.HistoryDependent()
    ensures FormatFlag(env, f, msg, tm, o).out == FormatFlag(env, f.Fresh(), msg, tm, o).out
    ensures FormatFlag(env, f, msg, tm, o).flag.Fresh() == f.Fresh()
  {
    hide PutField, PutFull, FullDate;
  }

  lemma {:induction false} FlagsTransparent(env: Env, fs: seq<Flag>, msg: Msg, tm: Tm, o: Output)
    requires HistoryFree(fs) && forall f | f in fs :: DateFits(f, Secs(msg.time), tm)
    ensures var r, out := FormatFlags(env, fs, msg, tm, o), ShowFlags(env, fs, msg, tm, o);
            r.Some? == out.Some? &&
            (r.Some? ==> r.value.out == out.value && FreshAll(r.value.flags) == FreshAll(fs))
  {
    hide FormatFlag, DateFits;
    if fs != [] {
      var first := FormatFlag(env, fs[0], msg, tm, o);
      assert DateFits(fs[0], Secs(msg.time), tm) && !fs[0].HistoryDependent();
      FlagTransparent(env, fs[0], msg, tm, o);
      if first.out.Some? {
        FlagsTransparent(env, fs[1..], msg, tm, first.out.value);
        var r := FormatFlags(env, fs[1..], msg, tm, first.out.value);
        if r.Some? {
          var flags := [first.flag] + r.value.flags;
          assert flags[1..] == r.value.flags;
          assert FreshAll(flags) == [first.flag.Fresh()] + FreshAll(r.value.flags);
        }
      }
    }
  }

  /** Any flag caches the date of the message, and stays of its kind. */
  lemma FlagKept(env: Env, f: Flag, msg: Msg, tm: Tm, o: Output)
    requires DateFits(f, Secs(msg.time), tm)
    ensures var f' := FormatFlag(env, f, msg, tm, o).flag;
            && DateIs(f', Secs(msg.time), tm)
            && f'.ReadsTime() == f.ReadsTime() && f'.HistoryDependent() == f.HistoryDependent()
  {
    hide PutField, PutFull, FullDate;
  }

  lemma HistoryFreeCons(f: Flag, fs: seq<Flag>)
    ensures HistoryFree([f] + fs) <==> !f.HistoryDependent() && HistoryFree(fs)
  {
    assert forall g :: g in [f] + fs <==> g == f || g in fs;
  }

  lemma {:induction false} FlagsKept(env: Env, fs: seq<Flag>, msg: Msg, tm: Tm, o: Output, need: bool)
    requires forall f | f in fs :: DateFits(f, Secs(msg.time), tm) && (f.ReadsTime() ==> need)
    requires FormatFlags(env, fs, msg, tm, o).Some?
    ensures var flags := FormatFlags(env, fs, msg, tm, o).value.flags;
            && (forall f | f in flags :: DateIs(f, Secs(msg.time), tm) && (f.ReadsTime() ==> need))
            && HistoryFree(flags) == HistoryFree(fs)
  {
    hide FormatFlag, DateFits, DateIs, HistoryFree;
    if fs != [] {
      var first := FormatFlag(env, fs[0], msg, tm, o);
      assert DateFits(fs[0], Secs(msg.time), tm);
      FlagKept(env, fs[0], msg, tm, o);
      FlagsKept(env, fs[1..], msg, tm, first.out.value, need);
      HistoryFreeCons(fs[0], fs[1..]);
      HistoryFreeCons(first.flag, FormatFlags(env, fs[1..], msg, tm, first.out.value).value.flags);
      assert fs == [fs[0]] + fs[1..];
    }
  }

  /** Flags that do not read the time print alike at any time. */
  lemma {:induction false} ShowIgnoresTime(env: Env, fs: seq<Flag>, msg: Msg, tm: Tm, tm': Tm, o: Output)
    requires HistoryFree(fs) && forall f | f in fs :: !f.ReadsTime()
    ensures ShowFlags(env, fs, msg, tm, o) == ShowFlags(env, fs, msg, tm', o)
  {
    hide FormatFlag;
    if fs != [] {
      FlagIgnoresTime(env, fs[0], msg, tm, tm', o);
      var out := FormatFlag(env, fs[0].Fresh(), msg, tm, o).out;
      if out.Some? { ShowIgnoresTime(env, fs[1..], msg, tm, tm', out.value); }
    }
  }

  lemma FlagIgnoresTime(env: Env, f: Flag, msg: Msg, tm: Tm, tm': Tm, o: Output)
    requires !f.HistoryDependent() && !f.ReadsTime()
    ensures FormatFlag(env, f.Fresh(), msg, tm, o).out == FormatFlag(env, f.Fresh(), msg, tm', o).out
  {
    if f.FieldFlag? { PlainFieldsIgnoreTime(f.flag, env, msg, tm, tm'); }
  }

  lemma {:induction false} ShowFlagsFresh(env: Env, fs: seq<Flag>, msg: Msg, tm: Tm, o: Output)
    ensures ShowFlags(env, FreshAll(fs), msg, tm, o) == ShowFlags(env, fs, msg, tm, o)
  {
    hide FormatFlag;
    if fs != [] {
      assert FreshAll(fs)[1..] == FreshAll(fs[1..]) && fs[0].Fresh().Fresh() == fs[0].Fresh();
      var out := FormatFlag(env, fs[0].Fresh(), msg, tm, o).out;
      if out.Some? { ShowFlagsFresh(env, fs[1..], msg, tm, out.value); }
    }
  }

  lemma {:induction false} FlagsFresh(handlers: Handlers, now: int, segments: seq<Segment>)
    requires forall x | x in segments :: ValidSegment(x)
    ensures FreshAll(Flags(handlers, now, segments)) == Flags(handlers, now, segments)
    ensures forall f | f in Flags(handlers, now, segments) :: f.Fresh() == f
  {
    hide SegmentFlags;
    if segments != [] {
      FlagsFresh(handlers, now, segments[1..]);
      SegmentFlagsFresh(handlers, now, segments[0]);
      FreshOfConcat(SegmentFlags(handlers, now, segments[0]), Flags(handlers, now, segments[1..]));
    }
  }

  lemma SegmentFlagsFresh(handlers: Handlers, now: int, x: Segment)
    requires ValidSegment(x)
    ensures forall f | f in SegmentFlags(handlers, now, x) :: f.Fresh() == f
  {}

  lemma {:induction false} FreshOfConcat(a: seq<Flag>, b: seq<Flag>)
    requires forall f | f in a :: f.Fresh() == f
    ensures FreshAll(a + b) == a + FreshAll(b)
  {
    if a == [] {
      assert a + b == b;
    } else {
      FreshOfConcat(a[1..], b);
      assert (a + b)[1..] == a[1..] + b && a[0] in a;
    }
  }

  /** Compiling leaves every cache empty. */
  lemma CompileFresh(handlers: Handlers, now: int, pattern: string)
    ensures FreshAll(Compile(handlers, now, pattern)) == Compile(handlers, now, pattern)
    ensures forall f | f in Compile(handlers, now, pattern) :: f.Fresh() == f
  {
    SegmentsValid("", pattern);
    FlagsFresh(handlers, now, Segments("", pattern));
  }

  // ------------------------------------------------------------- whole patterns

  /** The output of a pattern, segment by segment. */
  function ShowSegments(
      env: Env, handlers: Handlers, now: int, segments: seq<Segment>, msg: Msg, tm: Tm, o: Output): Option<Output>
    requires forall x | x in segments :: ValidSegment(x)
  {
    if segments == [] then Some(o)
    else
      assert ValidSegment(segments[0]);
      var out := match segments[0]
                 case Literal(s) => Some(Put(o, s))
                 case Placeholder(spec, c) => ShowFlags(env, FlagsOf(handlers, now, c, spec.Padding()), msg, tm, o)
                 case Incomplete(_) => Some(o);
      match out
      case None => None
      case Some(o') => ShowSegments(env, handlers, now, segments[1..], msg, tm, o')
  }

  lemma {:induction false} ShowFlagsConcat(env: Env, fs: seq<Flag>, gs: seq<Flag>, msg: Msg, tm: Tm, o: Output)
    ensures ShowFlags(env, fs + gs, msg, tm, o) ==
            match ShowFlags(env, fs, msg, tm, o)
            case None => None
            case Some(o') => ShowFlags(env, gs, msg, tm, o')
  {
    hide FormatFlag;
    if fs == [] {
      assert fs + gs == gs;
    } else {
      assert (fs + gs)[1..] == fs[1..] + gs;
      var out := FormatFlag(env, fs[0].Fresh(), msg, tm, o).out;
      if out.Some? { ShowFlagsConcat(env, fs[1..], gs, msg, tm, out.value); }
    }
  }

  lemma ShowSegment(env: Env, handlers: Handlers, now: int, x: Segment, msg: Msg, tm: Tm, o: Output)
    requires ValidSegment(x)
    ensures x.Literal? ==> ShowFlags(env, SegmentFlags(handlers, now, x), msg, tm, o) == Some(Put(o, x.text))
    ensures x.Incomplete? ==> ShowFlags(env, SegmentFlags(handlers, now, x), msg, tm, o) == Some(o)
  {
    if x.Literal? {
      var f := Chars(x.text);
      assert [f][1..] == [] && ShowFlags(env, [], msg, tm, Put(o, x.text)) == Some(Put(o, x.text));
    }
  }

  /** A compiled pattern prints what its segments mean, one behind the other. */
  lemma {:induction false} FlagsShowSegments(
      env: Env, handlers: Handlers, now: int, segments: seq<Segment>, msg: Msg, tm: Tm, o: Output)
    requires forall x | x in segments :: ValidSegment(x)
    ensures ShowFlags(env, Flags(handlers, now, segments), msg, tm, o) ==
            ShowSegments(env, handlers, now, segments, msg, tm, o)
  {
    hide ShowFlags, FlagsOf;
    if segments == [] {
      NoFlags(env, msg, tm, o);
    } else {
      var first := SegmentFlags(handlers, now, segments[0]);
      ShowFlagsConcat(env, first, Flags(handlers, now, segments[1..]), msg, tm, o);
      ShowSegment(env, handlers, now, segments[0], msg, tm, o);
      var out := ShowFlags(env, first, msg, tm, o);
      if out.Some? { FlagsShowSegments(env, handlers, now, segments[1..], msg, tm, out.value); }
    }
  }

  lemma NoFlags(env: Env, msg: Msg, tm: Tm, o: Output)
    ensures ShowFlags(env, [], msg, tm, o) == Some(o)
  {}

  // --------------------------------------------------------------- one message

  /** The time that is handed to the flags is the one of the message. */
  predicate TimeRight(env: Env, st: State, msg: Msg) {
    st.needLocaltime ==> Refresh(env, st, msg).cachedTm == env.Time(st.timeType, Secs(msg.time))
  }

  /** Exactly when that is: always but in second zero of a formatter that looked no time up yet. */
  lemma TimeRightExactly(env: Env, st: State, msg: Msg)
    requires Warm(env, st) || Cold(st)
    ensures TimeRight(env, st, msg) <==> !st.needLocaltime || Warm(env, st) || Secs(msg.time) != 0
    ensures Warm(env, st) || (st.needLocaltime && Secs(msg.time) != 0) ==> Warm(env, Refresh(env, st, msg))
    ensures Warm(env, Refresh(env, st, msg)) || Cold(Refresh(env, st, msg))
  {}

  lemma DatesFit(env: Env, st: State, msg: Msg)
    requires FlagsGood(st)
    ensures var tm := Refresh(env, st, msg).cachedTm;
            forall f | f in st.flags :: DateFits(f, Secs(msg.time), tm) && (f.ReadsTime() ==> st.needLocaltime)
  {
    forall f | f in st.flags
      ensures DateFits(f, Secs(msg.time), Refresh(env, st, msg).cachedTm) && (f.ReadsTime() ==> st.needLocaltime)
    {
      assert FlagGood(st, f);
    }
  }

  /** No message breaks the caches, whatever flags there are and whatever second it is. */
  lemma FormatKeepsGood(env: Env, st: State, msg: Msg, o: Output)
    requires FlagsGood(st) && Format(env, st, msg, o).Some?
    ensures var st', l := Refresh(env, st, msg), Format(env, st, msg, o).value;
            && FlagsGood(l.state) && l.state == st'.(flags := l.state.flags)
            && HistoryFree(l.state.flags) == HistoryFree(st.flags)
  {
    hide FormatFlags, FullDate;
    var st' := Refresh(env, st, msg);
    DatesFit(env, st, msg);
    FlagsKept(env, st.flags, msg, st'.cachedTm, o, st.needLocaltime);
    var l := Format(env, st, msg, o).value;
    forall f | f in l.state.flags ensures FlagGood(l.state, f) {
      assert DateIs(f, Secs(msg.time), st'.cachedTm);
    }
  }

  /** Whatever second it is, the cached dates do not show: only the time at hand does. */
  lemma FormatAsFresh(env: Env, st: State, msg: Msg, o: Output)
    requires FlagsGood(st) && HistoryFree(st.flags)
    ensures var st', l := Refresh(env, st, msg), Format(env, st, msg, o);
            var out := ShowFlags(env, FreshAll(st.flags), msg, st'.cachedTm, o);
            l.Some? == out.Some? &&
            (l.Some? ==> && l.value.out == Put(out.value, st.eol) && FlagsGood(l.value.state)
                         && Config(l.value.state) == Config(st)
                         && l.value.state == st'.(flags := l.value.state.flags))
  {
    hide FormatFlags, ShowFlags, FlagsGood;
    var st' := Refresh(env, st, msg);
    DatesFit(env, st, msg);
    FlagsTransparent(env, st.flags, msg, st'.cachedTm, o);
    ShowFlagsFresh(env, st.flags, msg, st'.cachedTm, o);
    if Format(env, st, msg, o).Some? { FormatKeepsGood(env, st, msg, o); }
  }

  /** A message at the right time comes out as without caches, and the caches stay right. */
  lemma FormatTransparent(env: Env, st: State, msg: Msg, o: Output)
    requires Good(env, st) && HistoryFree(st.flags) && TimeRight(env, st, msg)
    ensures var l, out := Format(env, st, msg, o), Show(env, Config(st), msg, o);
            l.Some? == out.Some? &&
            (l.Some? ==> l.value.out == out.value && Good(env, l.value.state) && Config(l.value.state) == Config(st))
  {
    hide Format, ShowFlags, FullDate;
    var st' := Refresh(env, st, msg);
    TimeRightExactly(env, st, msg);
    FormatAsFresh(env, st, msg, o);
    if !st.needLocaltime {
      forall f | f in st.flags ensures !f.ReadsTime() { assert FlagGood(st, f); }
      ShowIgnoresTime(env, st.flags, msg, st'.cachedTm, env.Time(st.timeType, Secs(msg.time)), o);
      ShowFlagsFresh(env, st.flags, msg, st'.cachedTm, o);
      ShowFlagsFresh(env, st.flags, msg, env.Time(st.timeType, Secs(msg.time)), o);
    }
  }

  lemma ConfigureDates(st: State, e: Event)
    requires FlagsGood(st) && !e.Log?
    ensures FlagsGood(Configure(st, e)) && Config(Configure(st, e)) == Configure(Config(st), e)
    ensures Configure(st, e).cachedTm == st.cachedTm && Configure(st, e).lastLogSecs == st.lastLogSecs
  {
    if e.SetPattern? {
      CompileFresh(st.handlers, e.now, e.pattern);
      NeedExactly(st.handlers, e.now, e.pattern);
    } else {
      var st' := Configure(st, e);
      forall f | f in st'.flags ensures FlagGood(st', f) { assert FlagGood(st, f); }
    }
  }

  lemma ConfigureGood(env: Env, st: State, e: Event)
    requires Good(env, st) && !e.Log?
    ensures Good(env, Configure(st, e)) && Config(Configure(st, e)) == Configure(Config(st), e)
    ensures Warm(env, Configure(st, e)) == Warm(env, st)
  {
    hide FlagsGood, Config, Compile, PatternNeeds;
    ConfigureDates(st, e);
  }

  lemma {:induction false} HistoryFreeFresh(fs: seq<Flag>)
    ensures HistoryFree(FreshAll(fs)) == HistoryFree(fs)
  {
    if fs != [] {
      HistoryFreeFresh(fs[1..]);
      var rest := FreshAll(fs[1..]);
      assert HistoryFree(fs) <==> !fs[0].HistoryDependent() && HistoryFree(fs[1..]);
      assert FreshAll(fs) == [fs[0].Fresh()] + rest;
      assert HistoryFree([fs[0].Fresh()] + rest) <==> !fs[0].Fresh().HistoryDependent() && HistoryFree(rest) by {
        assert forall f :: f in [fs[0].Fresh()] + rest <==> f == fs[0].Fresh() || f in rest;
      }
    }
  }

  // ---------------------------------------------------------------- whole runs

  /** The conditions of a run are about its configuration, not its caches. */
  lemma {:induction false} FirstTimedConfig(a: State, b: State, es: seq<Event>)
    requires a.needLocaltime == b.needLocaltime && a.handlers == b.handlers
    ensures FirstTimed(a, es) == FirstTimed(b, es)
    decreases |es|
  {
    if es != [] && !(es[0].Log? && a.needLocaltime) {
      FirstTimedConfig(Configure(a, es[0]), Configure(b, es[0]), es[1..]);
    }
  }

  /**
   Over any run of messages, new patterns and new flags, the output is that of
   a formatter without caches, if no message of second zero is the first to
   need the time.
   */
  lemma {:induction false} CachesDoNotShow(env: Env, st: State, es: seq<Event>)
    requires Good(env, st) && HistoryFreeRun(Config(st), es)
    requires Warm(env, st) || FirstTimed(st, es)
    ensures Run(env, st, es) == CacheFreeRun(env, Config(st), es)
    decreases |es|
  {
    hide Format, Show, Configure;
    HistoryFreeFresh(st.flags);
    if es == [] {
    } else if es[0].Log? {
      var msg, o := es[0].msg, es[0].dest;
      LogConfigures(st, es[0]);
      LogConfigures(Config(st), es[0]);
      TimeRightExactly(env, st, msg);
      FormatTransparent(env, st, msg, o);
      var l := Format(env, st, msg, o);
      if l.Some? {
        StillTimed(env, st, msg, o, es[1..]);
        CachesDoNotShow(env, l.value.state, es[1..]);
      }
    } else {
      ConfigureGood(env, st, es[0]);
      CachesDoNotShow(env, Configure(st, es[0]), es[1..]);
    }
  }

  lemma LogConfigures(st: State, e: Event)
    requires e.Log?
    ensures Configure(st, e) == st
  {}

  lemma StillTimed(env: Env, st: State, msg: Msg, o: Output, es: seq<Event>)
    requires Warm(env, st) || Cold(st)
    requires Format(env, st, msg, o).Some?
    requires Warm(env, st) || (if st.needLocaltime then Secs(msg.time) != 0 else FirstTimed(st, es))
    ensures var st' := Format(env, st, msg, o).value.state; Warm(env, st') || FirstTimed(st', es)
  {
    hide FormatFlags;
    FirstTimedConfig(st, Format(env, st, msg, o).value.state, es);
  }

  /** Every message of the run is formatted with its own time. */
  predicate TimesRight(env: Env, st: State, es: seq<Event>)
    decreases |es|
  {
    if es == [] then true
    else if es[0].Log? then
      TimeRight(env, st, es[0].msg) &&
      (match Format(env, st, es[0].msg, es[0].dest)
       case None => true
       case Some(l) => TimesRight(env, l.state, es[1..]))
    else TimesRight(env, Configure(st, es[0]), es[1..])
  }

  /** The condition on the first timed message is exact: without it some message gets a wrong time. */
  lemma {:induction false} TimesRightExactly(env: Env, st: State, es: seq<Event>)
    requires Warm(env, st) || Cold(st)
    requires Run(env, st, es).Some?
    ensures TimesRight(env, st, es) <==> Warm(env, st) || FirstTimed(st, es)
    decreases |es|
  {
    hide FormatFlags;
    if es != [] {
      if es[0].Log? {
        TimeRightExactly(env, st, es[0].msg);
        var st' := Format(env, st, es[0].msg, es[0].dest).value.state;
        FirstTimedConfig(st, st', es[1..]);
        TimesRightExactly(env, st', es[1..]);
      } else {
        TimesRightExactly(env, Configure(st, es[0]), es[1..]);
      }
    }
  }

  // ------------------------------------------------------- the need for the time

  /** What a flag prints for a message at two times, but for its padding. */
  predicate TwoTimesDiffer(env: Env, f: Flag, msg: Msg, o: Output, tm: Tm, tm': Tm) {
    FormatFlag(env, f.Unpadded(), msg, tm, o).out != FormatFlag(env, f.Unpadded(), msg, tm', o).out
  }

  /** Some message at two times shows that the flag prints by the time. */
  ghost predicate PrintsByTime(f: Flag) {
    exists env, msg, o, tm, tm' :: TwoTimesDiffer(env, f, msg, o, tm, tm')
  }

  const AN_ENV := Env(_ => ZERO_TM, _ => ZERO_TM, (tm: Tm) => tm.sec, 0, "/")
  const NOWHERE := Output("", 0, 0)

  function MessageAt(time: int): Msg {
    Msg("", Info, time, 0, Source("", 0, ""), "")
  }

  /** Behind the date the full format prints the same at any time. */
  lemma FullFormatParts(env: Env, date: string, msg: Msg)
    ensures PutFull(env, date, msg, NOWHERE).text ==
            date + (FullHead(msg) + LevelName(msg.level) + FullTail(env, msg))
  {
    hide FullHead, LevelName, FullTail;
    assert "" + date == date;
  }

  lemma FullFlagPrintsByTime(f: Flag)
    requires f.FullFlag?
    ensures PrintsByTime(f)
  {
    hide FullHead, LevelName, FullTail, FullDate, PutFull, Secs;
    var msg := MessageAt(if f.stamp == 0 then SECOND else 0);
    SecondOf(f.stamp);
    FullDatesDiffer();
    FullFormatParts(AN_ENV, FullDate(EARLIER), msg);
    FullFormatParts(AN_ENV, FullDate(LATER), msg);
    SameBehind(FullDate(EARLIER), FullDate(LATER), FullHead(msg) + LevelName(msg.level) + FullTail(AN_ENV, msg));
    assert TwoTimesDiffer(AN_ENV, f, msg, NOWHERE, EARLIER, LATER);
  }

  lemma SecondOf(stamp: int)
    ensures Secs(if stamp == 0 then SECOND else 0) != stamp
  {}

  lemma SameBehind(s: string, t: string, rest: string)
    ensures s + rest == t + rest ==> s == t
  {
    if s + rest == t + rest {
      assert s == (s + rest)[..|s|] && t == (t + rest)[..|t|];
    }
  }

  lemma ZonesDiffer()
    ensures ZoneText(0) != ZoneText(1)
  {
    assert ZoneText(0)[5] != ZoneText(1)[5];
  }

  lemma ZoneOffsetShows(f: Flag, msg: Msg, tm: Tm)
    requires f.ZoneFlag? && msg.time - f.lastUpdate >= 10 * SECOND
    ensures FormatFlag(AN_ENV, f.Unpadded(), msg, tm, NOWHERE).out == Some(Output(ZoneText(tm.sec), 0, 0))
  {
    hide ZoneText;
    assert "" + ZoneText(tm.sec) == ZoneText(tm.sec);
  }

  lemma ZoneFlagPrintsByTime(f: Flag)
    requires f.ZoneFlag?
    ensures PrintsByTime(f)
  {
    hide ZoneText, FormatFlag;
    var msg := MessageAt(f.lastUpdate + 10 * SECOND);
    ZonesDiffer();
    ZoneOffsetShows(f, msg, EARLIER);
    ZoneOffsetShows(f, msg, LATER);
    assert TwoTimesDiffer(AN_ENV, f, msg, NOWHERE, EARLIER, LATER);
  }

  lemma FieldPrintsByTime(f: Flag)
    requires f.FieldFlag? && f.flag in TIME_FLAGS
    ensures PrintsByTime(f)
  {
    hide TimeText, Declared;
    TimeFlagDiffers(f.flag);
    var earlier, later := TimeText(f.flag, EARLIER), TimeText(f.flag, LATER);
    assert "" + earlier == earlier && "" + later == later;
    assert TwoTimesDiffer(AN_ENV, f, MessageAt(0), NOWHERE, EARLIER, LATER);
  }

  /** The flags that read the time are those that print by it. */
  lemma PrintsByTimeExactly(f: Flag)
    ensures PrintsByTime(f) <==> f.ReadsTime()
  {
    hide PrintsByTime;
    if f.FullFlag? {
      FullFlagPrintsByTime(f);
    } else if f.ZoneFlag? {
      ZoneFlagPrintsByTime(f);
    } else if f.ReadsTime() {
      FieldPrintsByTime(f);
    } else {
      OtherFlagIgnoresTime(f);
    }
  }

  lemma OtherFlagIgnoresTime(f: Flag)
    requires !f.ReadsTime()
    ensures !PrintsByTime(f)
  {
    hide FieldText, Declared;
    forall env, msg, o, tm, tm' ensures !TwoTimesDiffer(env, f, msg, o, tm, tm') {
      if f.FieldFlag? { PlainFieldsIgnoreTime(f.flag, env, msg, tm, tm'); }
    }
  }

  /** The time is asked for exactly if a flag of the compiled pattern prints by it. */
  lemma NeedIsPrintingByTime(handlers: Handlers, now: int, pattern: string)
    ensures PatternNeeds(handlers, pattern) <==> exists f | f in Compile(handlers, now, pattern) :: PrintsByTime(f)
  {
    hide PatternNeeds, Compile, PrintsByTime;
    NeedExactly(handlers, now, pattern);
    forall f ensures PrintsByTime(f) <==> f.ReadsTime() {
      PrintsByTimeExactly(f);
    }
  }

  /** A new formatter satisfies them. */
  lemma NewStateGood(env: Env, now: int, pattern: string, timeType: TimeType, eol: string, handlers: Handlers)
    ensures Good(env, NewState(now, pattern, timeType, eol, handlers))
  {
    CompileFresh(handlers, now, pattern);
    NeedExactly(handlers, now, pattern);
  }

  /** The formatter without a pattern is the one of the full format. */
  lemma DefaultIsFullFormat(now: int, timeType: TimeType, eol: string)
    ensures DefaultState(timeType, eol) == NewState(now, "%+", timeType, eol, map[])
  {
    hide Compile, PatternNeeds;
    assert "%+" == "%" + ['+'];
    CompileOne(map[], now, '+');
  }

  /** A new formatter for the day of the month. */
  function DayFormatter(now: int, timeType: TimeType, eol: string): State {
    NewState(now, "%d", timeType, eol, map[])
  }

  lemma DayFormatterIs(env: Env, now: int, timeType: TimeType, eol: string, msg: Msg)
    requires Secs(msg.time) == 0
    ensures var st := DayFormatter(now, timeType, eol);
            && st.flags == [FieldFlag('d', NO_PADDING)] && st.eol == eol && st.timeType == timeType
            && Refresh(env, st, msg).cachedTm == ZERO_TM
  {
    hide Compile, PatternNeeds;
    assert "%d" == "%" + ['d'];
    CompileOne(map[], now, 'd');
  }

  /** In second zero a new formatter prints the zeroed time, where one without caches looks it up. */
  lemma SecondZeroDiffers(env: Env, now: int, timeType: TimeType, eol: string, msg: Msg)
    requires Secs(msg.time) == 0 && env.Time(timeType, 0).mday == 1
    ensures var st, es := DayFormatter(now, timeType, eol), [Log(msg, Output("", 0, 0))];
            && Run(env, st, es) == Some([Output("00" + eol, 0, 0)])
            && CacheFreeRun(env, Config(st), es) == Some([Output("01" + eol, 0, 0)])
  {
    hide DayFormatter, FormatFlag, Run, CacheFreeRun, Config, Refresh;
    var st, o, f := DayFormatter(now, timeType, eol), Output("", 0, 0), FieldFlag('d', NO_PADDING);
    DayFormatterIs(env, now, timeType, eol, msg);
    DayField(env, msg, ZERO_TM, o);
    DayField(env, msg, env.Time(timeType, 0), o);
    OneMessage(env, st, f, msg, o, Output("00", 0, 0));
    OneMessageCacheFree(env, st, f, msg, o, Output("01", 0, 0));
  }

  lemma DayField(env: Env, msg: Msg, tm: Tm, o: Output)
    requires tm.mday < 2 && tm.mday >= 0 && o == Output("", 0, 0)
    ensures FormatFlag(env, FieldFlag('d', NO_PADDING), msg, tm, o) ==
            Formatted(FieldFlag('d', NO_PADDING), Some(Output(if tm.mday == 0 then "00" else "01", 0, 0)))
  {
    var text := if tm.mday == 0 then "00" else "01";
    assert FieldText('d', env, msg, tm) == Pad2(tm.mday) == text;
    assert "" + text == text;
  }

  /** The pattern of a single flag. */
  lemma CompileOne(handlers: Handlers, now: int, c: char)
    requires !IsDigit(c) && c !in {'-', '='}
    ensures Compile(handlers, now, "%" + [c]) == FlagsOf(handlers, now, c, NO_PADDING)
    ensures PatternNeeds(handlers, "%" + [c]) == Needs(handlers, c)
  {
    hide Segments;
    OneFlagPattern(c);
    var x := Placeholder(Spec(None, "", false), c);
    OneSegment(handlers, now, x);
    assert AnyNeeds(handlers, [x]) == SegmentNeeds(handlers, x);
  }

  lemma OneFlagPattern(c: char)
    requires !IsDigit(c) && c !in {'-', '='}
    ensures Segments("", "%" + [c]) == [Placeholder(Spec(None, "", false), c)]
    ensures forall x | x in Segments("", "%" + [c]) :: ValidSegment(x)
  {
    var spec := ReadSpec([c]);
    assert ("%" + [c])[1..] == [c] && spec == Spec(None, "", false) && spec.Text() == "";
    assert Segments("", "%" + [c]) == Pending("") + [Placeholder(spec, c)] + Segments("", ("%" + [c])[2..]);
  }

  lemma OneFlag(env: Env, f: Flag, msg: Msg, tm: Tm, o: Output)
    ensures var r := FormatFlag(env, f, msg, tm, o);
            FormatFlags(env, [f], msg, tm, o) == if r.out.None? then None else Some(Rendered([r.flag], r.out.value))
    ensures ShowFlags(env, [f], msg, tm, o) == FormatFlag(env, f.Fresh(), msg, tm, o).out
  {
    hide FormatFlag;
    assert [f][1..] == [];
    var r := FormatFlag(env, f, msg, tm, o);
    assert [r.flag] + [] == [r.flag];
  }

  /** A run of one message through a formatter of one flag without a cache. */
  lemma OneMessage(env: Env, st: State, f: Flag, msg: Msg, o: Output, out: Output)
    requires st.flags == [f]
    requires FormatFlag(env, f, msg, Refresh(env, st, msg).cachedTm, o) == Formatted(f, Some(out))
    ensures Run(env, st, [Log(msg, o)]) == Some([Put(out, st.eol)])
  {
    hide FormatFlag;
    OneFlag(env, f, msg, Refresh(env, st, msg).cachedTm, o);
    var es := [Log(msg, o)];
    assert es[1..] == [] && Run(env, Format(env, st, msg, o).value.state, []) == Some([]);
    assert [Put(out, st.eol)] + [] == [Put(out, st.eol)];
  }

  lemma OneMessageCacheFree(env: Env, st: State, f: Flag, msg: Msg, o: Output, out: Output)
    requires st.flags == [f] && f.Fresh() == f
    requires FormatFlag(env, f, msg, env.Time(st.timeType, Secs(msg.time)), o).out == Some(out)
    ensures CacheFreeRun(env, Config(st), [Log(msg, o)]) == Some([Put(out, st.eol)])
  {
    hide FormatFlag;
    OneFlag(env, f, msg, env.Time(st.timeType, Secs(msg.time)), o);
    assert FreshAll([f][1..]) == [] && FreshAll([f]) == [f];
    var es := [Log(msg, o)];
    assert es[1..] == [] && CacheFreeRun(env, Config(st), []) == Some([]);
    assert [Put(out, st.eol)] + [] == [Put(out, st.eol)];
  }

  // ------------------------------------------------------------------- escaping

  /** Doubles every percent sign. */
  function Escape(s: string): string {
    if s == "" then "" else (if s[0] == '%' then "%%" else [s[0]]) + Escape(s[1..])
  }

  ghost predicate AllChars(fs: seq<Flag>) {
    forall f | f in fs :: f.Chars?
  }

  function Joined(fs: seq<Flag>): string
    requires AllChars(fs)
  {
    if fs == [] then "" else fs[0].text + Joined(fs[1..])
  }

  lemma {:induction false} JoinedConcat(a: seq<Flag>, b: seq<Flag>)
    requires AllChars(a) && AllChars(b)
    ensures AllChars(a + b) && Joined(a + b) == Joined(a) + Joined(b)
  {
    if a == [] {
      assert a + b == b;
    } else {
      JoinedConcat(a[1..], b);
      assert (a + b)[1..] == a[1..] + b;
    }
  }

  lemma JoinedPending(handlers: Handlers, now: int, pending: string)
    ensures var fs := Flags(handlers, now, Pending(pending)); AllChars(fs) && Joined(fs) == pending
  {
    if pending != "" {
      assert Pending(pending)[1..] == [];
      assert [Chars(pending)][1..] == [];
    }
  }

  lemma {:induction false} FlagsConcat(handlers: Handlers, now: int, a: seq<Segment>, b: seq<Segment>)
    requires forall x | x in a + b :: ValidSegment(x)
    requires forall x | x in a :: ValidSegment(x)
    requires forall x | x in b :: ValidSegment(x)
    ensures Flags(handlers, now, a + b) == Flags(handlers, now, a) + Flags(handlers, now, b)
  {
    if a == [] {
      assert a + b == b;
    } else {
      assert (a + b)[1..] == a[1..] + b;
      FlagsConcat(handlers, now, a[1..], b);
    }
  }

  lemma EscapedStep(handlers: Handlers, now: int, pending: string, t: string, rest: string)
    requires '%' !in handlers
    requires forall x | x in Segments("", t) :: ValidSegment(x)
    requires var fs := Flags(handlers, now, Segments("", t)); AllChars(fs) && Joined(fs) == "" + rest
    requires forall x | x in Segments(pending, "%%" + t) :: ValidSegment(x)
    ensures var fs := Flags(handlers, now, Segments(pending, "%%" + t));
            AllChars(fs) && Joined(fs) == pending + "%" + rest
    ensures AnyNeeds(handlers, Segments(pending, "%%" + t)) == AnyNeeds(handlers, Segments("", t))
  {
    hide Segments, Flags, AnyNeeds;
    assert "" + rest == rest;
    EscapedPercent(handlers, now, pending, t);
    JoinedPending(handlers, now, pending);
    JoinedThree(Flags(handlers, now, Pending(pending)), Chars("%"), Flags(handlers, now, Segments("", t)));
  }

  lemma {:induction false} EscapedFlags(handlers: Handlers, now: int, pending: string, s: string)
    requires '%' !in handlers
    ensures forall x | x in Segments(pending, Escape(s)) :: ValidSegment(x)
    ensures var fs := Flags(handlers, now, Segments(pending, Escape(s))); AllChars(fs) && Joined(fs) == pending + s
    ensures !AnyNeeds(handlers, Segments(pending, Escape(s)))
    decreases |s|
  {
    hide Segments, Flags, AnyNeeds;
    SegmentsValid(pending, Escape(s));
    if s == "" {
      EmptyPattern(pending);
      JoinedPending(handlers, now, pending);
      PendingNeedsNothing(handlers, pending);
    } else if s[0] == '%' {
      EscapedFlags(handlers, now, "", s[1..]);
      EscapedStep(handlers, now, pending, Escape(s[1..]), s[1..]);
      assert s == "%" + s[1..];
      assert pending + "%" + s[1..] == pending + s;
    } else {
      LiteralStep(pending, s[0], Escape(s[1..]));
      EscapedFlags(handlers, now, pending + [s[0]], s[1..]);
      assert pending + [s[0]] + s[1..] == pending + s;
    }
  }

  lemma JoinedThree(a: seq<Flag>, f: Flag, b: seq<Flag>)
    requires AllChars(a) && AllChars(b) && f.Chars?
    ensures AllChars(a + [f] + b) && Joined(a + [f] + b) == Joined(a) + f.text + Joined(b)
  {
    JoinedConcat(a + [f], b);
    JoinedConcat(a, [f]);
    assert [f][1..] == [];
  }

  lemma LiteralStep(pending: string, c: char, t: string)
    requires c != '%'
    ensures Segments(pending, [c] + t) == Segments(pending + [c], t)
  {
    assert ([c] + t)[1..] == t;
  }

  lemma PendingNeedsNothing(handlers: Handlers, pending: string)
    ensures !AnyNeeds(handlers, Pending(pending))
  {}

  lemma AnyNeedsPieces(handlers: Handlers, chars: string, x: Segment, rest: seq<Segment>)
    ensures AnyNeeds(handlers, Pending(chars) + [x] + rest) == (SegmentNeeds(handlers, x) || AnyNeeds(handlers, rest))
  {
    var all := Pending(chars) + [x] + rest;
    assert forall y :: y in all <==> y in Pending(chars) || y == x || y in rest;
  }

  lemma EscapedPercent(handlers: Handlers, now: int, pending: string, t: string)
    requires '%' !in handlers
    requires forall x | x in Segments(pending, "%%" + t) :: ValidSegment(x)
    requires forall x | x in Segments("", t) :: ValidSegment(x)
    requires forall x | x in Pending(pending) :: ValidSegment(x)
    ensures Flags(handlers, now, Segments(pending, "%%" + t)) ==
            Flags(handlers, now, Pending(pending)) + [Chars("%")] + Flags(handlers, now, Segments("", t))
    ensures AnyNeeds(handlers, Segments(pending, "%%" + t)) == AnyNeeds(handlers, Segments("", t))
  {
    hide Segments, Flags, AnyNeeds;
    var spec := Spec(None, "", false);
    var x := Placeholder(spec, '%');
    SegmentsAtPlaceholder(pending, spec, '%', t);
    assert x.Text() + t == "%%" + t;
    FlagsConcat(handlers, now, Pending(pending) + [x], Segments("", t));
    FlagsConcat(handlers, now, Pending(pending), [x]);
    OneSegment(handlers, now, x);
    AnyNeedsPieces(handlers, pending, x, Segments("", t));
  }

  lemma OneSegment(handlers: Handlers, now: int, x: Segment)
    requires ValidSegment(x)
    ensures Flags(handlers, now, [x]) == SegmentFlags(handlers, now, x)
  {
    assert Flags(handlers, now, [x][1..]) == [];
  }

  lemma CharsFlag(env: Env, f: Flag, msg: Msg, tm: Tm, o: Output, more: string)
    requires f.Chars?
    ensures FormatFlag(env, f, msg, tm, o) == Formatted(f, Some(Put(o, f.text)))
    ensures Put(Put(o, f.text), more) == Put(o, f.text + more)
  {
    assert o.text + f.text + more == o.text + (f.text + more);
  }

  lemma {:induction false} CharsFormat(env: Env, fs: seq<Flag>, msg: Msg, tm: Tm, o: Output)
    requires AllChars(fs)
    ensures FormatFlags(env, fs, msg, tm, o) == Some(Rendered(fs, Put(o, Joined(fs))))
  {
    hide FormatFlag;
    if fs == [] {
      assert o.text + "" == o.text;
    } else {
      CharsFlag(env, fs[0], msg, tm, o, Joined(fs[1..]));
      CharsFormat(env, fs[1..], msg, tm, Put(o, fs[0].text));
      assert fs == [fs[0]] + fs[1..];
    }
  }

  /** Escaping is the right inverse of formatting: the escaped text prints the text. */
  lemma EscapedTextPrints(
      env: Env, now: int, s: string, timeType: TimeType, eol: string, handlers: Handlers, msg: Msg, o: Output)
    requires '%' !in handlers
    ensures var st := NewState(now, Escape(s), timeType, eol, handlers);
            Format(env, st, msg, o) == Some(Logged(st, Put(Put(o, s), eol)))
  {
    EscapedFlags(handlers, now, "", s);
    assert "" + s == s;
    CharsFormat(env, Compile(handlers, now, Escape(s)), msg, ZERO_TM, o);
  }
}
