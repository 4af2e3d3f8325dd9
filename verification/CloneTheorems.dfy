/**
 Clones of a formatter: exactly when one has the flags of the original, and
 that it then prints every later run alike, over all states a run can reach.
 */
module CloneTheorems {
  import opened Wrappers
  import opened Padding
  import opened LogFields
  import opened PatternGrammar
  import opened FormatterModel
  import opened FormatterTheorems

  // ---------------------------------------------------- what a pattern compiles to

  /** Two tables of handlers treat a flag character alike. */
  ghost predicate SameHandler(a: Handlers, b: Handlers, c: char) {
    (c in a <==> c in b) && (c in a ==> a[c] == b[c])
  }

  ghost predicate SameHandlers(a: Handlers, b: Handlers, segments: seq<Segment>) {
    forall x | x in segments && x.Placeholder? :: SameHandler(a, b, x.flag)
  }

  /** A placeholder of the pattern has this flag character. */
  predicate Uses(segments: seq<Segment>, c: char) {
    exists x | x in segments :: x.Placeholder? && x.flag == c
  }

  lemma SegmentFlagsAlike(a: Handlers, b: Handlers, now: int, x: Segment, fs: seq<Flag>, gs: seq<Flag>)
    requires ValidSegment(x)
    ensures SegmentFlags(a, now, x) + fs == SegmentFlags(b, now, x) + gs <==>
            (x.Placeholder? ==> SameHandler(a, b, x.flag)) && fs == gs
  {
    hide BuiltIn;
    var l, r := SegmentFlags(a, now, x) + fs, SegmentFlags(b, now, x) + gs;
    if x.Placeholder? {
      var p := x.spec.Padding();
      BuiltInIsNotCustom(now, x.flag, p);
      if SameHandler(a, b, x.flag) {
        SameFront(SegmentFlags(a, now, x), fs, gs);
      } else {
        assert l[0] == SegmentFlags(a, now, x)[0] && r[0] == SegmentFlags(b, now, x)[0];
      }
    } else {
      SameFront(SegmentFlags(a, now, x), fs, gs);
    }
  }

  lemma SameFront(front: seq<Flag>, fs: seq<Flag>, gs: seq<Flag>)
    ensures front + fs == front + gs <==> fs == gs
  {
    assert fs == (front + fs)[|front|..] && gs == (front + gs)[|front|..];
  }

  lemma BuiltInIsNotCustom(now: int, c: char, p: PaddingInfo)
    ensures BuiltIn(now, c, p) != [] && !BuiltIn(now, c, p)[0].CustomFlag?
  {}

  lemma {:induction false} FlagsAlikeExactly(a: Handlers, b: Handlers, now: int, segments: seq<Segment>)
    requires forall x | x in segments :: ValidSegment(x)
    ensures Flags(a, now, segments) == Flags(b, now, segments) <==> SameHandlers(a, b, segments)
  {
    hide SegmentFlags, SameHandler;
    if segments != [] {
      FlagsAlikeExactly(a, b, now, segments[1..]);
      SegmentFlagsAlike(a, b, now, segments[0], Flags(a, now, segments[1..]), Flags(b, now, segments[1..]));
      assert segments == [segments[0]] + segments[1..];
    }
  }

  /** A pattern compiles to the same flags exactly if its placeholders meet the same handlers. */
  lemma CompileAlikeExactly(a: Handlers, b: Handlers, now: int, pattern: string)
    ensures Compile(a, now, pattern) == Compile(b, now, pattern) <==> SameHandlers(a, b, Segments("", pattern))
  {
    SegmentsValid("", pattern);
    FlagsAlikeExactly(a, b, now, Segments("", pattern));
  }

  lemma {:induction false} FlagsIgnoreClock(handlers: Handlers, now: int, later: int, segments: seq<Segment>)
    requires forall x | x in segments :: ValidSegment(x)
    requires HistoryFree(Flags(handlers, now, segments))
    ensures Flags(handlers, later, segments) == Flags(handlers, now, segments)
  {
    hide SegmentFlags;
    if segments != [] {
      var first, rest := SegmentFlags(handlers, now, segments[0]), Flags(handlers, now, segments[1..]);
      assert forall f :: f in first || f in rest ==> f in first + rest;
      SegmentIgnoresClock(handlers, now, later, segments[0]);
      FlagsIgnoreClock(handlers, now, later, segments[1..]);
    }
  }

  lemma SegmentIgnoresClock(handlers: Handlers, now: int, later: int, x: Segment)
    requires ValidSegment(x) && HistoryFree(SegmentFlags(handlers, now, x))
    ensures SegmentFlags(handlers, later, x) == SegmentFlags(handlers, now, x)
  {
    if x.Placeholder? && x.flag !in handlers {
      var f := BuiltIn(now, x.flag, x.spec.Padding())[0];
      assert f in SegmentFlags(handlers, now, x) && !f.HistoryDependent();
    }
  }

  /** Without flags that depend on the messages before, compiling does not read the clock. */
  lemma CompileIgnoresClock(handlers: Handlers, now: int, later: int, pattern: string)
    requires HistoryFree(Compile(handlers, now, pattern))
    ensures Compile(handlers, later, pattern) == Compile(handlers, now, pattern)
  {
    SegmentsValid("", pattern);
    FlagsIgnoreClock(handlers, now, later, Segments("", pattern));
  }

  // --------------------------------------------------------------------- one flag

  /** The flags are those that the handlers of now would give. */
  ghost predicate Current(st: State, now: int) {
    FreshAll(st.flags) == Compile(st.handlers, now, st.pattern)
  }

  /** Adding a flag keeps a formatter current exactly if no placeholder has it, or its handler is the one there was. */
  lemma AddFlagKeepsCurrentExactly(st: State, now: int, c: char, h: Handler)
    requires Current(st, now)
    ensures Current(Configure(st, AddFlag(c, h)), now) <==>
            !Uses(Segments("", st.pattern), c) || (c in st.handlers && st.handlers[c] == h)
  {
    hide Compile, Segments;
    var a, b, segments := st.handlers, st.handlers[c := h], Segments("", st.pattern);
    CompileAlikeExactly(a, b, now, st.pattern);
    assert forall d: char :: d != c ==> SameHandler(a, b, d);
    assert SameHandler(a, b, c) <==> c in a && a[c] == h;
    if Uses(segments, c) && SameHandlers(a, b, segments) {
      var x :| x in segments && x.Placeholder? && x.flag == c;
      assert SameHandler(a, b, x.flag);
    }
  }

  // -------------------------------------------------------------- states of a run

  /** The state behind a run; None if the program ends in it. */
  function After(env: Env, st: State, es: seq<Event>): Option<State>
    decreases |es|
  {
    if es == [] then Some(st)
    else if es[0].Log? then
      match Format(env, st, es[0].msg, es[0].dest)
      case None => None
      case Some(l) => After(env, l.state, es[1..])
    else After(env, Configure(st, es[0]), es[1..])
  }

  function ConfigAfter(st: State, es: seq<Event>): State
    decreases |es|
  {
    if es == [] then st else ConfigAfter(Configure(st, es[0]), es[1..])
  }

  /** The handlers of the last compilation, if those of the one before the run are `compiled`. */
  function LastCompiled(compiled: Handlers, st: State, es: seq<Event>): Handlers
    decreases |es|
  {
    if es == [] then compiled
    else LastCompiled(if es[0].SetPattern? then st.handlers else compiled, Configure(st, es[0]), es[1..])
  }

  /**
   A state has a configuration: messages changed nothing of it but caches. Flags
   that depend on history have state of their own, and are not compared.
   */
  ghost predicate Follows(st: State, c: State) {
    && st.pattern == c.pattern && st.eol == c.eol && st.timeType == c.timeType
    && st.needLocaltime == c.needLocaltime && st.handlers == c.handlers
    && HistoryFree(st.flags) == HistoryFree(c.flags)
    && (HistoryFree(c.flags) ==> FreshAll(st.flags) == FreshAll(c.flags))
  }

  lemma LogFollows(env: Env, st: State, c: State, msg: Msg, o: Output)
    requires Good(env, st) && Follows(st, c) && Format(env, st, msg, o).Some?
    ensures var st' := Format(env, st, msg, o).value.state; Good(env, st') && Follows(st', c)
  {
    hide Format, FlagsGood, HistoryFree;
    TimeRightExactly(env, st, msg);
    FormatKeepsGood(env, st, msg, o);
    if HistoryFree(st.flags) {
      FormatAsFresh(env, st, msg, o);
      FlagsOfConfig(st);
      FlagsOfConfig(Format(env, st, msg, o).value.state);
    }
  }

  lemma FlagsOfConfig(st: State)
    ensures Config(st).flags == FreshAll(st.flags)
  {}

  lemma ConfigureFollows(st: State, c: State, e: Event)
    requires Follows(st, c) && !e.Log?
    ensures Follows(Configure(st, e), Configure(c, e))
  {
    hide Compile, PatternNeeds;
  }

  /** No run breaks the caches, and its messages leave the configuration alone. */
  lemma {:induction false} AfterRun(env: Env, st: State, c: State, es: seq<Event>)
    requires Good(env, st) && Follows(st, c) && After(env, st, es).Some?
    ensures var st' := After(env, st, es).value; Good(env, st') && Follows(st', ConfigAfter(c, es))
    decreases |es|
  {
    hide Format, Configure, FlagsGood, Follows;
    if es != [] {
      if es[0].Log? {
        LogConfigures(c, es[0]);
        LogFollows(env, st, c, es[0].msg, es[0].dest);
        AfterRun(env, Format(env, st, es[0].msg, es[0].dest).value.state, c, es[1..]);
      } else {
        ConfigureGood(env, st, es[0]);
        ConfigureFollows(st, c, es[0]);
        AfterRun(env, Configure(st, es[0]), Configure(c, es[0]), es[1..]);
      }
    }
  }

  /** Behind a run the flags are those of the last compilation, at any clock if it has no flags that read it. */
  lemma {:induction false} FlagsAfter(compiled: Handlers, now: int, st: State, es: seq<Event>, later: int)
    requires st.flags == Compile(compiled, now, st.pattern) && HistoryFree(ConfigAfter(st, es).flags)
    ensures var st' := ConfigAfter(st, es); st'.flags == Compile(LastCompiled(compiled, st, es), later, st'.pattern)
    decreases |es|
  {
    hide Compile, PatternNeeds, HistoryFree;
    if es == [] {
      CompileIgnoresClock(compiled, now, later, st.pattern);
    } else if es[0].SetPattern? {
      FlagsAfter(st.handlers, es[0].now, Configure(st, es[0]), es[1..], later);
    } else {
      FlagsAfter(compiled, now, Configure(st, es[0]), es[1..], later);
    }
  }

  /** A formatter as it is constructed. */
  ghost predicate IsNew(st: State, now: int) {
    st == NewState(now, st.pattern, st.timeType, st.eol, st.handlers)
  }

  /** A state that a constructed formatter can be in behind a run of any kind. */
  ghost predicate Reaches(env: Env, start: State, now: int, past: seq<Event>, st: State) {
    IsNew(start, now) && After(env, start, past) == Some(st)
  }

  /** No flag of the pattern got another handler since the pattern was compiled. */
  ghost predicate NonePending(start: State, past: seq<Event>, st: State) {
    SameHandlers(LastCompiled(start.handlers, start, past), st.handlers, Segments("", st.pattern))
  }

  lemma ReachedFollows(env: Env, start: State, now: int, past: seq<Event>, st: State)
    requires Reaches(env, start, now, past, st)
    ensures Good(env, st) && Follows(st, ConfigAfter(start, past))
  {
    hide Compile, PatternNeeds, After, ConfigAfter;
    NewStateGood(env, now, start.pattern, start.timeType, start.eol, start.handlers);
    AfterRun(env, start, start, past);
  }

  /**
   The flags of a reachable state are those its handlers give exactly if no added
   flag is pending. Only the pattern of now must not depend on history.
   */
  lemma ReachedCurrentExactly(env: Env, start: State, now: int, past: seq<Event>, st: State, later: int)
    requires Reaches(env, start, now, past, st) && HistoryFree(st.flags)
    ensures Good(env, st)
    ensures Current(st, later) <==> NonePending(start, past, st)
  {
    hide Compile, PatternNeeds, Segments, After, ConfigAfter, LastCompiled, FlagsGood, HistoryFree;
    ReachedFollows(env, start, now, past, st);
    FlagsAfter(start.handlers, now, start, past, later);
    var compiled := LastCompiled(start.handlers, start, past);
    CompileFresh(compiled, later, st.pattern);
    CompileAlikeExactly(compiled, st.handlers, later, st.pattern);
  }

  /** No event adds a flag the pattern uses, unless with the handler it has. */
  ghost predicate AddsUnusedOnly(st: State, es: seq<Event>)
    decreases |es|
  {
    if es == [] then true
    else
      && (es[0].AddFlag? ==> !Uses(Segments("", st.pattern), es[0].flag) ||
                             (es[0].flag in st.handlers && st.handlers[es[0].flag] == es[0].handler))
      && AddsUnusedOnly(Configure(st, es[0]), es[1..])
  }

  /** Then none is pending, whatever else happens. */
  lemma {:induction false} UnusedIsNotPending(compiled: Handlers, st: State, es: seq<Event>)
    requires SameHandlers(compiled, st.handlers, Segments("", st.pattern)) && AddsUnusedOnly(st, es)
    ensures var st' := ConfigAfter(st, es);
            SameHandlers(LastCompiled(compiled, st, es), st'.handlers, Segments("", st'.pattern))
    decreases |es|
  {
    hide Segments, Compile, PatternNeeds;
    if es != [] {
      var e, st' := es[0], Configure(st, es[0]);
      if e.AddFlag? {
        forall x | x in Segments("", st.pattern) && x.Placeholder? ensures SameHandler(compiled, st'.handlers, x.flag) {
          assert SameHandler(compiled, st.handlers, x.flag);
        }
      }
      UnusedIsNotPending(if e.SetPattern? then st.handlers else compiled, st', es[1..]);
    }
  }

  lemma UnusedNeverPending(env: Env, start: State, now: int, past: seq<Event>, st: State)
    requires Reaches(env, start, now, past, st) && AddsUnusedOnly(start, past)
    ensures NonePending(start, past, st)
  {
    hide Compile, PatternNeeds, Segments, After, ConfigAfter, LastCompiled, AddsUnusedOnly, FlagsGood, HistoryFree;
    ReachedFollows(env, start, now, past, st);
    UnusedIsNotPending(start.handlers, start, past);
  }

  // ------------------------------------------------------------------ times of a run

  /** The times that are handed to the flags in the messages that need one. */
  function Times(env: Env, st: State, es: seq<Event>): seq<Tm>
    decreases |es|
  {
    if es == [] then []
    else if es[0].Log? then
      var st' := Refresh(env, st, es[0].msg);
      (if st.needLocaltime then [st'.cachedTm] else []) + Times(env, st', es[1..])
    else Times(env, Configure(st, es[0]), es[1..])
  }

  /** The two states agree on everything their times depend on but the time caches. */
  ghost predicate SameNeeds(a: State, b: State) {
    a.needLocaltime == b.needLocaltime && a.handlers == b.handlers && a.timeType == b.timeType
  }

  lemma {:induction false} SameTimes(env: Env, a: State, b: State, es: seq<Event>)
    requires SameNeeds(a, b)
    requires (a.cachedTm == b.cachedTm && a.lastLogSecs == b.lastLogSecs) || (Warm(env, a) && Warm(env, b))
    ensures Times(env, a, es) == Times(env, b, es)
    decreases |es|
  {
    hide Compile, PatternNeeds;
    if es != [] {
      if es[0].Log? {
        SameTimes(env, Refresh(env, a, es[0].msg), Refresh(env, b, es[0].msg), es[1..]);
      } else {
        SameTimes(env, Configure(a, es[0]), Configure(b, es[0]), es[1..]);
      }
    }
  }

  lemma {:induction false} WarmAndColdTimes(env: Env, a: State, b: State, es: seq<Event>)
    requires SameNeeds(a, b) && Warm(env, a) && Cold(b) && !Warm(env, b)
    ensures Times(env, a, es) == Times(env, b, es) <==> FirstTimed(a, es)
    decreases |es|
  {
    hide Compile, PatternNeeds;
    if es != [] {
      if es[0].Log? && a.needLocaltime {
        var a', b' := Refresh(env, a, es[0].msg), Refresh(env, b, es[0].msg);
        if Secs(es[0].msg.time) != 0 {
          SameTimes(env, a', b', es[1..]);
        } else {
          assert Times(env, a, es)[0] == a'.cachedTm && Times(env, b, es)[0] == b'.cachedTm;
        }
      } else {
        var a', b' := Configure(a, es[0]), Configure(b, es[0]);
        WarmAndColdTimes(env, a', b', es[1..]);
        if es[0].Log? {
          assert Times(env, a, es) == [] + Times(env, a', es[1..]) == Times(env, a', es[1..]);
          assert Times(env, b, es) == [] + Times(env, b', es[1..]) == Times(env, b', es[1..]);
        }
      }
    }
  }

  /** The time caches of a formatter and its clone agree over a later run, as far as it matters. */
  predicate TimesAgree(env: Env, st: State, es: seq<Event>) {
    Cold(st) || FirstTimed(st, es) || env.Time(st.timeType, 0) == ZERO_TM
  }

  /** Exactly when a clone hands the same times to its flags as the original, in every message of a later run. */
  lemma CloneTimesExactly(env: Env, st: State, now: int, es: seq<Event>)
    requires Good(env, st)
    ensures Times(env, Clone(st, now), es) == Times(env, st, es) <==> TimesAgree(env, st, es)
  {
    hide Compile, PatternNeeds, Times;
    var c := Clone(st, now);
    if Cold(st) || env.Time(st.timeType, 0) == ZERO_TM {
      SameTimes(env, st, c, es);
    } else {
      WarmAndColdTimes(env, st, c, es);
    }
  }

  // ---------------------------------------------------------------------- clones

  /** Formatters with the same configuration and time cache print alike, whatever dates they cached. */
  lemma {:induction false} DatesDoNotShow(env: Env, a: State, b: State, es: seq<Event>)
    requires FlagsGood(a) && FlagsGood(b) && Config(a) == Config(b) && HistoryFreeRun(Config(a), es)
    requires a.cachedTm == b.cachedTm && a.lastLogSecs == b.lastLogSecs
    ensures Run(env, a, es) == Run(env, b, es)
    decreases |es|
  {
    hide Format, Configure, FlagsGood, ShowFlags;
    HistoryFreeFresh(a.flags);
    HistoryFreeFresh(b.flags);
    if es != [] {
      if es[0].Log? {
        var msg, o := es[0].msg, es[0].dest;
        LogConfigures(Config(a), es[0]);
        FormatAsFresh(env, a, msg, o);
        FormatAsFresh(env, b, msg, o);
        var l, k := Format(env, a, msg, o), Format(env, b, msg, o);
        if l.Some? { DatesDoNotShow(env, l.value.state, k.value.state, es[1..]); }
      } else {
        ConfigureDates(a, es[0]);
        ConfigureDates(b, es[0]);
        DatesDoNotShow(env, Configure(a, es[0]), Configure(b, es[0]), es[1..]);
      }
    }
  }

  lemma CloneConfig(env: Env, st: State, now: int)
    requires Good(env, st) && Current(st, now)
    ensures Config(Clone(st, now)) == Config(st)
    ensures Good(env, Clone(st, now)) && Cold(Clone(st, now))
  {
    var c := Clone(st, now);
    CompileFresh(st.handlers, now, st.pattern);
    forall f | f in c.flags ensures FlagGood(c, f) {
      assert f in FreshAll(st.flags) && f.Fresh() == f;
      if f.ReadsTime() { FreshReadsTime(st, st.flags, f); }
    }
  }

  lemma {:induction false} FreshReadsTime(st: State, fs: seq<Flag>, f: Flag)
    requires f in FreshAll(fs) && f.ReadsTime() && forall g | g in fs :: FlagGood(st, g)
    ensures st.needLocaltime
  {
    assert FreshAll(fs) == [fs[0].Fresh()] + FreshAll(fs[1..]);
    if f == fs[0].Fresh() {
      assert FlagGood(st, fs[0]);
    } else {
      FreshReadsTime(st, fs[1..], f);
    }
  }

  lemma CurrentCloneAlike(env: Env, st: State, now: int, es: seq<Event>)
    requires Good(env, st) && Current(st, now) && HistoryFreeRun(Config(st), es) && TimesAgree(env, st, es)
    ensures Run(env, Clone(st, now), es) == Run(env, st, es)
  {
    hide Run, CacheFreeRun, Config, FlagsGood;
    var c := Clone(st, now);
    CloneConfig(env, st, now);
    if Cold(st) {
      DatesDoNotShow(env, c, st, es);
    } else {
      FirstTimedConfig(st, c, es);
      CachesDoNotShow(env, c, es);
      CachesDoNotShow(env, st, es);
    }
  }

  /** A clone has the configuration of the original exactly if no added flag is pending, whenever it is made. */
  lemma CloneConfigExactly(env: Env, start: State, now: int, past: seq<Event>, st: State, later: int)
    requires Reaches(env, start, now, past, st) && HistoryFree(st.flags)
    ensures Config(Clone(st, later)) == Config(st) <==> NonePending(start, past, st)
  {
    hide Compile, NonePending, FlagsGood, Reaches, HistoryFree;
    ReachedCurrentExactly(env, start, now, past, st, later);
    CompileFresh(st.handlers, later, st.pattern);
  }

  /**
   Clone equivalence: a formatter is constructed, and then formats messages, gets
   new patterns and new flags. If none of those is pending when it is cloned, the
   clone prints every later run as the original does, whatever either has cached.
   */
  lemma CloneEquivalent(env: Env, start: State, now: int, past: seq<Event>, st: State, later: int, future: seq<Event>)
    requires Reaches(env, start, now, past, st) && NonePending(start, past, st)
    requires HistoryFreeRun(Config(st), future) && TimesAgree(env, st, future)
    ensures Run(env, Clone(st, later), future) == Run(env, st, future)
  {
    hide Reaches, NonePending, Good, Current, Run, TimesAgree, Config;
    HistoryFreeFresh(st.flags);
    FlagsOfConfig(st);
    assert HistoryFree(Config(st).flags);
    hide HistoryFreeRun, HistoryFree;
    ReachedCurrentExactly(env, start, now, past, st, later);
    CurrentCloneAlike(env, st, later, future);
  }

  // ----------------------------------------------- a used flag shows in some clone

  /** By how much a flag makes the output longer; shorter, if it is negative. */
  function Growth(env: Env, f: Flag, msg: Msg, tm: Tm): int {
    match f
    case FullFlag(_, _) => |PutFull(env, FullDate(tm), msg, Output("", 0, 0)).text|
    case FieldFlag(c, p) =>
      var n, declared := |FieldText(c, env, msg, tm)|, Declared(c, env, msg, tm);
      if p.enabled && (declared <= p.width || p.truncate) then n + p.width - declared else n
    case Chars(s) => |s|
    case CustomFlag(h, p) => |h(p, msg)|
    case _ => 0
  }

  function GrowthAll(env: Env, fs: seq<Flag>, msg: Msg, tm: Tm): int {
    if fs == [] then 0 else Growth(env, fs[0], msg, tm) + GrowthAll(env, fs[1..], msg, tm)
  }

  /** Room that is enough for every flag in turn to take from. */
  function Room(env: Env, fs: seq<Flag>, msg: Msg, tm: Tm): nat {
    if fs == [] then 0
    else
      var g := Growth(env, fs[0], msg, tm);
      (if g < 0 then -g else 0) + Room(env, fs[1..], msg, tm)
  }

  lemma FlagGrows(env: Env, f: Flag, msg: Msg, tm: Tm, o: Output)
    requires !f.HistoryDependent() && |o.text| + Growth(env, f, msg, tm) >= 0
    ensures var out := FormatFlag(env, f.Fresh(), msg, tm, o).out;
            out.Some? && |out.value.text| == |o.text| + Growth(env, f, msg, tm)
  {
    hide FullHead, FullTail, FullDate, LevelName, Declared, FieldText;
  }

  lemma {:induction false} FlagsGrow(env: Env, fs: seq<Flag>, msg: Msg, tm: Tm, o: Output)
    requires HistoryFree(fs) && |o.text| >= Room(env, fs, msg, tm)
    ensures var out := ShowFlags(env, fs, msg, tm, o);
            out.Some? && |out.value.text| == |o.text| + GrowthAll(env, fs, msg, tm)
  {
    hide FormatFlag, Growth;
    if fs != [] {
      FlagGrows(env, fs[0], msg, tm, o);
      FlagsGrow(env, fs[1..], msg, tm, FormatFlag(env, fs[0].Fresh(), msg, tm, o).out.value);
    }
  }

  lemma {:induction false} GrowthOfConcat(env: Env, fs: seq<Flag>, gs: seq<Flag>, msg: Msg, tm: Tm)
    ensures GrowthAll(env, fs + gs, msg, tm) == GrowthAll(env, fs, msg, tm) + GrowthAll(env, gs, msg, tm)
  {
    hide Growth;
    if fs == [] {
      assert fs + gs == gs;
    } else {
      assert (fs + gs)[1..] == fs[1..] + gs;
      GrowthOfConcat(env, fs[1..], gs, msg, tm);
    }
  }

  /** A handler that prints a string. */
  function Prints(s: string): Handler {
    (p: PaddingInfo, m: Msg) => s
  }

  function Count(segments: seq<Segment>, c: char): nat {
    if segments == [] then 0
    else (if segments[0].Placeholder? && segments[0].flag == c then 1 else 0) + Count(segments[1..], c)
  }

  lemma {:induction false} UsedIsCounted(segments: seq<Segment>, c: char)
    ensures Uses(segments, c) ==> Count(segments, c) > 0
  {
    if segments != [] {
      UsedIsCounted(segments[1..], c);
      assert segments == [segments[0]] + segments[1..];
    }
  }

  lemma SegmentGrowth(env: Env, handlers: Handlers, now: int, x: Segment, c: char, s: string, msg: Msg, tm: Tm)
    requires ValidSegment(x)
    ensures x.Placeholder? && x.flag == c ==>
              GrowthAll(env, SegmentFlags(handlers[c := Prints(s)], now, x), msg, tm) == |s|
    ensures !(x.Placeholder? && x.flag == c) ==>
              SegmentFlags(handlers[c := Prints(s)], now, x) == SegmentFlags(handlers, now, x)
  {
    hide BuiltIn;
    if x.Placeholder? && x.flag == c {
      var f := CustomFlag(Prints(s), x.spec.Padding());
      assert SegmentFlags(handlers[c := Prints(s)], now, x) == [f] && [f][1..] == [];
      assert GrowthAll(env, [], msg, tm) == 0;
    }
  }

  /** One more character from the handler is one more for every placeholder. */
  lemma {:induction false} FlagsGrowth(
      env: Env, handlers: Handlers, now: int, segments: seq<Segment>, c: char, msg: Msg, tm: Tm)
    requires forall x | x in segments :: ValidSegment(x)
    ensures GrowthAll(env, Flags(handlers[c := Prints("x")], now, segments), msg, tm) ==
            GrowthAll(env, Flags(handlers[c := Prints("")], now, segments), msg, tm) + Count(segments, c)
  {
    hide SegmentFlags, Growth;
    if segments != [] {
      var x, rest := segments[0], segments[1..];
      FlagsGrowth(env, handlers, now, rest, c, msg, tm);
      SegmentGrowth(env, handlers, now, x, c, "x", msg, tm);
      SegmentGrowth(env, handlers, now, x, c, "", msg, tm);
      GrowthOfConcat(env, SegmentFlags(handlers[c := Prints("x")], now, x),
                     Flags(handlers[c := Prints("x")], now, rest), msg, tm);
      GrowthOfConcat(env, SegmentFlags(handlers[c := Prints("")], now, x),
                     Flags(handlers[c := Prints("")], now, rest), msg, tm);
    }
  }

  /** A handler for one flag brings in no dependence on history. */
  lemma {:induction false} HandlerIsHistoryFree(
      handlers: Handlers, now: int, segments: seq<Segment>, c: char, h: Handler)
    requires forall x | x in segments :: ValidSegment(x)
    requires HistoryFree(Flags(handlers, now, segments))
    ensures HistoryFree(Flags(handlers[c := h], now, segments))
  {
    hide BuiltIn;
    if segments != [] {
      var x, rest := segments[0], segments[1..];
      var first := SegmentFlags(handlers, now, x);
      assert forall f :: f in first || f in Flags(handlers, now, rest) ==> f in first + Flags(handlers, now, rest);
      HandlerIsHistoryFree(handlers, now, rest, c, h);
      assert HistoryFree(SegmentFlags(handlers[c := h], now, x));
    }
  }

  /** The length of what one message prints through a formatter with empty caches and enough room. */
  lemma OneMessageLength(env: Env, st: State, msg: Msg, o: Output)
    requires FlagsGood(st) && HistoryFree(st.flags)
    requires |o.text| >= Room(env, FreshAll(st.flags), msg, Refresh(env, st, msg).cachedTm)
    ensures var out := Run(env, st, [Log(msg, o)]);
            var growth := GrowthAll(env, FreshAll(st.flags), msg, Refresh(env, st, msg).cachedTm);
            out.Some? && |out.value| == 1 && |out.value[0].text| == |o.text| + growth + |st.eol|
  {
    hide Format, FlagsGood, GrowthAll, Room;
    var tm := Refresh(env, st, msg).cachedTm;
    HistoryFreeFresh(st.flags);
    FormatAsFresh(env, st, msg, o);
    FlagsGrow(env, FreshAll(st.flags), msg, tm, o);
    var es := [Log(msg, o)];
    assert es[1..] == [] && Run(env, Format(env, st, msg, o).value.state, []) == Some([]);
  }

  /** Messages do not read the table of handlers. */
  lemma HandlersWait(env: Env, st: State, handlers: Handlers, msg: Msg, o: Output)
    ensures Run(env, st.(handlers := handlers), [Log(msg, o)]) == Run(env, st, [Log(msg, o)])
  {
    hide FormatFlags;
    var es := [Log(msg, o)];
    assert es[1..] == [];
    var st' := st.(handlers := handlers);
    assert Refresh(env, st', msg).flags == st.flags;
    assert Refresh(env, st', msg).cachedTm == Refresh(env, st, msg).cachedTm;
    var l, k := Format(env, st, msg, o), Format(env, st', msg, o);
    if l.Some? { assert Run(env, l.value.state, []) == Run(env, k.value.state, []); }
  }

  /** Apart from the custom flag itself, a handler for one flag brings in no flag. */
  lemma {:induction false} HandlerAddsOnlyItself(
      handlers: Handlers, now: int, segments: seq<Segment>, c: char, h: Handler, f: Flag)
    requires forall x | x in segments :: ValidSegment(x)
    requires f in Flags(handlers[c := h], now, segments) && !f.CustomFlag?
    ensures f in Flags(handlers, now, segments)
  {
    hide BuiltIn;
    var x, rest := segments[0], segments[1..];
    var first, others := SegmentFlags(handlers, now, x), Flags(handlers, now, rest);
    assert f in SegmentFlags(handlers[c := h], now, x) || f in Flags(handlers[c := h], now, rest);
    if f in SegmentFlags(handlers[c := h], now, x) {
      assert f in first;
      assert f in first + others;
    } else {
      HandlerAddsOnlyItself(handlers, now, rest, c, h, f);
      assert f in first + others;
    }
  }

  /** The clone of a formatter with a flag added has sound caches, and no flag that depends on history. */
  lemma AddedCloneGood(env: Env, st: State, now: int, c: char, h: Handler)
    requires Good(env, st) && Current(st, now) && HistoryFree(st.flags)
    ensures var clone := Clone(Configure(st, AddFlag(c, h)), now);
            FlagsGood(clone) && HistoryFree(clone.flags) && FreshAll(clone.flags) == clone.flags
  {
    hide Segments;
    var clone, segments := Clone(Configure(st, AddFlag(c, h)), now), Segments("", st.pattern);
    SegmentsValid("", st.pattern);
    HistoryFreeFresh(st.flags);
    HandlerIsHistoryFree(st.handlers, now, segments, c, h);
    CompileFresh(st.handlers[c := h], now, st.pattern);
    forall f | f in clone.flags ensures FlagGood(clone, f) {
      assert f.Fresh() == f;
      if f.ReadsTime() {
        HandlerAddsOnlyItself(st.handlers, now, segments, c, h, f);
        FreshReadsTime(st, st.flags, f);
      }
    }
  }

  /**
   The condition on added flags can not be weakened: for a flag that the pattern
   uses there is a handler that shows, and that in any message.
   */
  lemma UsedFlagShows(env: Env, st: State, now: int, c: char, msg: Msg) returns (h: Handler, o: Output)
    requires Good(env, st) && Current(st, now) && HistoryFree(st.flags)
    requires Uses(Segments("", st.pattern), c)
    ensures var added := Configure(st, AddFlag(c, h));
            Run(env, Clone(added, now), [Log(msg, o)]) != Run(env, added, [Log(msg, o)])
  {
    hide Run, Good, Current, FlagsGood, Segments, Flags, Uses, GrowthAll, Room, HistoryFree;
    var none := Clone(Configure(st, AddFlag(c, Prints(""))), now);
    var one := Clone(Configure(st, AddFlag(c, Prints("x"))), now);
    var tm := Refresh(env, none, msg).cachedTm;
    o := Output(Spaces(Room(env, none.flags, msg, tm) + Room(env, one.flags, msg, tm)), 0, 0);
    AddedCloneGood(env, st, now, c, Prints(""));
    AddedCloneGood(env, st, now, c, Prints("x"));
    OneMessageLength(env, none, msg, o);
    OneMessageLength(env, one, msg, o);
    SegmentsValid("", st.pattern);
    FlagsGrowth(env, st.handlers, now, Segments("", st.pattern), c, msg, tm);
    UsedIsCounted(Segments("", st.pattern), c);
    HandlersWait(env, st, st.handlers[c := Prints("")], msg, o);
    HandlersWait(env, st, st.handlers[c := Prints("x")], msg, o);
    h := if Run(env, none, [Log(msg, o)]) == Run(env, st, [Log(msg, o)]) then Prints("x") else Prints("");
  }

  /** A formatter with the pattern "%q" to which a handler for 'q' is added. */
  function WithAddedFlag(now: int, eol: string, handler: Handler): State {
    Configure(NewState(now, "%q", Local, eol, map[]), AddFlag('q', handler))
  }

  lemma UnknownFlagAsIs(now: int)
    ensures BuiltIn(now, 'q', NO_PADDING) == [Chars("%q")]
  {
    assert "%q" == "%" + ['q'];
  }

  lemma AddedFlagStates(now: int, eol: string, handler: Handler)
    ensures var st := WithAddedFlag(now, eol, handler);
            && st.flags == [Chars("%q")] && st.eol == eol
            && Clone(st, now).flags == [CustomFlag(handler, NO_PADDING)] && Clone(st, now).eol == eol
  {
    hide Compile, PatternNeeds, Segments, Flags, AnyNeeds, BuiltIn;
    UnknownFlagAsIs(now);
    assert "%q" == "%" + ['q'];
    CompileOne(map[], now, 'q');
    CompileOne(map['q' := handler], now, 'q');
  }

  /** A flag that is added later shows in the clone but not in the original. */
  lemma AddedFlagShowsInClone(env: Env, now: int, eol: string, handler: Handler, msg: Msg)
    ensures var st, es := WithAddedFlag(now, eol, handler), [Log(msg, Output("", 0, 0))];
            && Run(env, st, es) == Some([Output("%q" + eol, 0, 0)])
            && Run(env, Clone(st, now), es) == Some([Output(handler(NO_PADDING, msg) + eol, 0, 0)])
  {
    hide WithAddedFlag, Clone, Run, Refresh;
    var st, o, text := WithAddedFlag(now, eol, handler), Output("", 0, 0), handler(NO_PADDING, msg);
    AddedFlagStates(now, eol, handler);
    assert "" + "%q" == "%q" && "" + text == text;
    OneMessage(env, st, Chars("%q"), msg, o, Output("%q", 0, 0));
    OneMessage(env, Clone(st, now), CustomFlag(handler, NO_PADDING), msg, o, Output(text, 0, 0));
  }
}
