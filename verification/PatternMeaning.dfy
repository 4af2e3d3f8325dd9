/**
 What a pattern prints, from the pattern alone: the meaning of each segment is
 written out, and a formatter that compiles the pattern, caches times and pads
 fields in its buffer prints that in every message of a run.
 */
module PatternMeaning {
  import opened Wrappers
  import opened Padding
  import opened LogFields
  import opened PatternGrammar
  import opened FormatterModel
  import opened FormatterTheorems

  // ------------------------------------------------------------------ one field

  /**
   A text as a spec lays it out: without a width as it is; else filled up with
   spaces to the width, which is at most 64, in front, behind for a minus, around
   for an equals sign; and cut to it only if the spec has the mark for that.
   */
  function Laid(spec: Spec, text: string): string
    requires spec.Valid()
  {
    if spec.digits == "" then text
    else
      var asked := Value(spec.digits) % 0x1_0000_0000_0000_0000;
      var width := if asked < 64 then asked else 64;
      if |text| < width then
        var missing := width - |text|;
        if spec.side == Some('-') then text + Spaces(missing)
        else if spec.side == Some('=') then Spaces(missing / 2) + text + Spaces(missing - missing / 2)
        else Spaces(missing) + text
      else if spec.bang then text[..width]
      else text
  }

  /** The padder, with the padding that is compiled from a spec, lays out any text of its true size. */
  lemma SpecLaysOut(spec: Spec, dest: string, text: string)
    requires spec.Valid()
    ensures Padded(dest, |text|, spec.Padding(), text) == Some(dest + Laid(spec, text))
  {
    if spec.digits != "" {
      hide Value;
      var p := spec.Padding();
      if |text| < p.width {
        var missing := p.width - |text|;
        LaidParts(dest, Before(p.side, missing), text, missing);
      } else {
        LaidParts(dest, 0, text, 0);
        if spec.bang { assert (dest + text)[..|dest| + p.width] == dest + text[..p.width]; }
      }
    }
  }

  lemma LaidParts(dest: string, before: nat, text: string, missing: nat)
    requires before <= missing
    ensures dest + Spaces(before) + text + Spaces(missing - before) ==
            dest + (Spaces(before) + text + Spaces(missing - before))
    ensures before == 0 ==> Spaces(before) + text + Spaces(missing - before) == text + Spaces(missing)
    ensures before == missing ==> Spaces(before) + text + Spaces(missing - before) == Spaces(missing) + text
    ensures missing == 0 ==> Spaces(before) + text + Spaces(missing - before) == text
  {}

  // -------------------------------------------------------------- one segment

  /** The segments whose meaning does not depend on other messages. */
  predicate Plain(handlers: Handlers, x: Segment) {
    ValidSegment(x) && (x.Placeholder? ==> x.flag in handlers || x.flag !in {'+', 'z', 'u', 'i', 'o', 'O'})
  }

  /** A padded field declares the size it prints. */
  predicate Truthful(env: Env, handlers: Handlers, msg: Msg, tm: Tm, x: Segment) {
    x.Placeholder? && x.flag !in handlers && (x.flag in TIME_FLAGS || x.flag in PLAIN_FLAGS) && x.spec.digits != "" ==>
      Declared(x.flag, env, msg, tm) == |FieldText(x.flag, env, msg, tm)|
  }

  /**
   What a segment does to the output. A placeholder whose flag is unknown appears
   as it is, without its spec; but behind the mark for truncation it is the name
   of the function, and the character that follows.
   */
  function Written(env: Env, handlers: Handlers, msg: Msg, tm: Tm, o: Output, x: Segment): Output
    requires Plain(handlers, x)
  {
    match x
    case Literal(s) => Put(o, s)
    case Incomplete(_) => o
    case Placeholder(spec, c) =>
      if c in handlers then Put(o, handlers[c](spec.Padding(), msg))
      else if c == '^' then o.(colorStart := |o.text|)
      else if c == '$' then o.(colorEnd := |o.text|)
      else if c == '%' then Put(o, "%")
      else if c in TIME_FLAGS || c in PLAIN_FLAGS then Put(o, Laid(spec, FieldText(c, env, msg, tm)))
      else if spec.bang then Put(o, Laid(spec.(bang := false), PlainText('!', env, msg)) + [c])
      else Put(o, "%" + [c])
  }

  function WrittenAll(env: Env, handlers: Handlers, msg: Msg, tm: Tm, o: Output, xs: seq<Segment>): Output
    requires forall x | x in xs :: Plain(handlers, x)
    decreases |xs|
  {
    if xs == [] then o
    else
      assert Plain(handlers, xs[0]);
      WrittenAll(env, handlers, msg, tm, Written(env, handlers, msg, tm, o, xs[0]), xs[1..])
  }

  lemma FieldWritten(env: Env, spec: Spec, c: char, msg: Msg, tm: Tm, o: Output)
    requires spec.Valid()
    requires spec.digits != "" ==> Declared(c, env, msg, tm) == |FieldText(c, env, msg, tm)|
    ensures FormatFlag(env, FieldFlag(c, spec.Padding()), msg, tm, o).out ==
            Some(Put(o, Laid(spec, FieldText(c, env, msg, tm))))
  {
    hide Declared, FieldText, Laid;
    SpecLaysOut(spec, o.text, FieldText(c, env, msg, tm));
    hide Padded;
    if spec.digits == "" { NoPadder(o.text, Declared(c, env, msg, tm), spec, FieldText(c, env, msg, tm)); }
  }

  lemma NoPadder(dest: string, declared: nat, spec: Spec, text: string)
    requires spec.Valid() && spec.digits == ""
    ensures Padded(dest, declared, spec.Padding(), text) == Padded(dest, |text|, spec.Padding(), text)
  {}

  /** The name of the function behind the mark, and the character that follows. */
  lemma UnknownWritten(env: Env, spec: Spec, c: char, msg: Msg, tm: Tm, o: Output)
    requires spec.Valid() && spec.bang
    ensures ShowFlags(env, [FieldFlag('!', spec.Padding().(truncate := false)), Chars([c])], msg, tm, o) ==
            Some(Put(o, Laid(spec.(bang := false), PlainText('!', env, msg)) + [c]))
  {
    hide Laid, PlainText;
    var f, g := FieldFlag('!', spec.(bang := false).Padding()), Chars([c]);
    var name := PlainText('!', env, msg);
    FunctionNameIsTrue(env, msg, tm);
    FieldWritten(env, spec.(bang := false), '!', msg, tm, o);
    hide FormatFlag;
    var o' := Put(o, Laid(spec.(bang := false), name));
    CharsFlag(env, g, msg, tm, o', "");
    OneFlag(env, g, msg, tm, o');
    assert [f, g][1..] == [g];
    assert o.text + Laid(spec.(bang := false), name) + [c] == o.text + (Laid(spec.(bang := false), name) + [c]);
  }

  lemma FunctionNameIsTrue(env: Env, msg: Msg, tm: Tm)
    ensures Declared('!', env, msg, tm) == |FieldText('!', env, msg, tm)|
    ensures FieldText('!', env, msg, tm) == PlainText('!', env, msg)
  {}

  lemma PlaceholderWritten(env: Env, handlers: Handlers, now: int, spec: Spec, c: char, msg: Msg, tm: Tm, o: Output)
    requires Plain(handlers, Placeholder(spec, c)) && Truthful(env, handlers, msg, tm, Placeholder(spec, c))
    ensures ShowFlags(env, FlagsOf(handlers, now, c, spec.Padding()), msg, tm, o) ==
            Some(Written(env, handlers, msg, tm, o, Placeholder(spec, c)))
  {
    hide ShowFlags, Declared, FieldText, Laid, PlainText, Spec.Padding;
    var p := spec.Padding();
    var fs := FlagsOf(handlers, now, c, p);
    if c !in handlers && c !in TIME_FLAGS && c !in PLAIN_FLAGS && c !in {'^', '$', '%'} && spec.bang {
      PaddingMark(spec);
      UnknownWritten(env, spec, c, msg, tm, o);
    } else {
      PaddingMark(spec);
      assert |fs| == 1;
      OneFlag(env, fs[0], msg, tm, o);
      if c !in handlers && (c in TIME_FLAGS || c in PLAIN_FLAGS) {
        FieldWritten(env, spec, c, msg, tm, o);
      }
    }
  }

  lemma PaddingMark(spec: Spec)
    requires spec.Valid()
    ensures spec.Padding().truncate == spec.bang
  {}

  lemma SegmentWritten(env: Env, handlers: Handlers, now: int, x: Segment, msg: Msg, tm: Tm, o: Output)
    requires Plain(handlers, x) && Truthful(env, handlers, msg, tm, x)
    ensures ShowFlags(env, SegmentFlags(handlers, now, x), msg, tm, o) ==
            Some(Written(env, handlers, msg, tm, o, x))
  {
    hide ShowFlags, FlagsOf;
    match x
    case Placeholder(spec, c) => PlaceholderWritten(env, handlers, now, spec, c, msg, tm, o);
    case _ => ShowSegment(env, handlers, now, x, msg, tm, o);
  }

  // ------------------------------------------------------------ whole patterns

  ghost predicate AllPlain(handlers: Handlers, xs: seq<Segment>) {
    forall x | x in xs :: Plain(handlers, x)
  }

  ghost predicate AllTruthful(env: Env, handlers: Handlers, msg: Msg, tm: Tm, xs: seq<Segment>) {
    forall x | x in xs :: Truthful(env, handlers, msg, tm, x)
  }

  lemma {:induction false} SegmentsWritten(
      env: Env, handlers: Handlers, now: int, xs: seq<Segment>, msg: Msg, tm: Tm, o: Output)
    requires AllPlain(handlers, xs) && AllTruthful(env, handlers, msg, tm, xs)
    ensures forall x | x in xs :: ValidSegment(x)
    ensures ShowFlags(env, Flags(handlers, now, xs), msg, tm, o) ==
            Some(WrittenAll(env, handlers, msg, tm, o, xs))
    decreases |xs|
  {
    hide ShowFlags, SegmentFlags, Written, Truthful;
    forall x | x in xs ensures ValidSegment(x) { assert Plain(handlers, x); }
    if xs == [] {
      NoFlags(env, msg, tm, o);
    } else {
      var first, rest := SegmentFlags(handlers, now, xs[0]), Flags(handlers, now, xs[1..]);
      assert xs[0] in xs;
      SegmentWritten(env, handlers, now, xs[0], msg, tm, o);
      ShowFlagsConcat(env, first, rest, msg, tm, o);
      SegmentsWritten(env, handlers, now, xs[1..], msg, tm, Written(env, handlers, msg, tm, o, xs[0]));
    }
  }

  /** A compiled pattern writes what its segments mean, if the fields it pads declare their size. */
  lemma PatternWritten(env: Env, handlers: Handlers, now: int, pattern: string, msg: Msg, tm: Tm, o: Output)
    requires AllPlain(handlers, Segments("", pattern)) && AllTruthful(env, handlers, msg, tm, Segments("", pattern))
    ensures ShowFlags(env, Compile(handlers, now, pattern), msg, tm, o) ==
            Some(WrittenAll(env, handlers, msg, tm, o, Segments("", pattern)))
  {
    hide ShowFlags, Segments, AllPlain, AllTruthful;
    SegmentsWritten(env, handlers, now, Segments("", pattern), msg, tm, o);
  }

  // ---------------------------------------------------------------- whole runs

  /** The time of a message on the clock of a formatter. */
  function TimeOf(env: Env, timeType: TimeType, msg: Msg): Tm {
    match timeType
    case Local => env.localTm(Secs(msg.time))
    case Utc => env.gmTm(Secs(msg.time))
  }

  /** What a formatter for the segments makes of the messages of a run. */
  function Lines(env: Env, handlers: Handlers, timeType: TimeType, eol: string, xs: seq<Segment>, es: seq<Event>)
    : (lines: seq<Output>)
    requires forall x | x in xs :: Plain(handlers, x)
    requires forall e | e in es :: e.Log?
    ensures |lines| == |es|
  {
    seq(|es|, i requires 0 <= i < |es| =>
      assert es[i] in es;
      Put(WrittenAll(env, handlers, es[i].msg, TimeOf(env, timeType, es[i].msg), es[i].dest, xs), eol))
  }

  /** All fields that are padded in the run declare their size. */
  ghost predicate RunTruthful(env: Env, handlers: Handlers, timeType: TimeType, xs: seq<Segment>, es: seq<Event>) {
    forall e | e in es && e.Log? :: AllTruthful(env, handlers, e.msg, TimeOf(env, timeType, e.msg), xs)
  }

  lemma {:induction false} CacheFreeLines(env: Env, st: State, now: int, es: seq<Event>)
    requires AllPlain(st.handlers, Segments("", st.pattern)) && st.flags == Compile(st.handlers, now, st.pattern)
    requires (forall e | e in es :: e.Log?)
    requires RunTruthful(env, st.handlers, st.timeType, Segments("", st.pattern), es)
    ensures CacheFreeRun(env, st, es) ==
            Some(Lines(env, st.handlers, st.timeType, st.eol, Segments("", st.pattern), es))
    decreases |es|
  {
    hide ShowFlags, Segments, Compile, AllTruthful, WrittenAll;
    var lines := Lines(env, st.handlers, st.timeType, st.eol, Segments("", st.pattern), es);
    if es == [] {
      assert lines == [];
    } else {
      assert es[0] in es;
      var msg := es[0].msg;
      var tm := TimeOf(env, st.timeType, msg);
      assert AllTruthful(env, st.handlers, msg, tm, Segments("", st.pattern));
      PatternWritten(env, st.handlers, now, st.pattern, msg, tm, es[0].dest);
      CacheFreeLines(env, st, now, es[1..]);
      assert lines == [lines[0]] + Lines(env, st.handlers, st.timeType, st.eol, Segments("", st.pattern), es[1..]);
    }
  }

  lemma {:induction false} FlagsHistoryFree(handlers: Handlers, now: int, xs: seq<Segment>)
    requires AllPlain(handlers, xs)
    ensures forall x | x in xs :: ValidSegment(x)
    ensures HistoryFree(Flags(handlers, now, xs))
    decreases |xs|
  {
    forall x | x in xs ensures ValidSegment(x) { assert Plain(handlers, x); }
    if xs != [] {
      FlagsHistoryFree(handlers, now, xs[1..]);
      SegmentHistoryFree(handlers, now, xs[0]);
      hide SegmentFlags;
      var first, rest := SegmentFlags(handlers, now, xs[0]), Flags(handlers, now, xs[1..]);
      assert forall f :: f in first + rest <==> f in first || f in rest;
    }
  }

  lemma SegmentHistoryFree(handlers: Handlers, now: int, x: Segment)
    requires Plain(handlers, x)
    ensures HistoryFree(SegmentFlags(handlers, now, x))
  {}

  lemma {:induction false} LogsHistoryFree(st: State, es: seq<Event>)
    requires HistoryFree(st.flags) && forall e | e in es :: e.Log?
    ensures HistoryFreeRun(st, es)
    decreases |es|
  {
    if es != [] {
      assert es[0] in es;
      LogsHistoryFree(st, es[1..]);
    }
  }

  lemma CompiledHistoryFree(handlers: Handlers, now: int, pattern: string)
    requires AllPlain(handlers, Segments("", pattern))
    ensures HistoryFree(Compile(handlers, now, pattern))
  {
    hide Segments, AllPlain, HistoryFree;
    FlagsHistoryFree(handlers, now, Segments("", pattern));
  }

  lemma StateWritten(env: Env, st: State, now: int, es: seq<Event>)
    requires AllPlain(st.handlers, Segments("", st.pattern)) && forall e | e in es :: e.Log?
    requires st.flags == Compile(st.handlers, now, st.pattern) && Good(env, st)
    requires RunTruthful(env, st.handlers, st.timeType, Segments("", st.pattern), es)
    requires Warm(env, st) || FirstTimed(st, es)
    ensures Run(env, st, es) == Some(Lines(env, st.handlers, st.timeType, st.eol, Segments("", st.pattern), es))
  {
    CompileFresh(st.handlers, now, st.pattern);
    CompiledHistoryFree(st.handlers, now, st.pattern);
    assert Config(st).flags == st.flags;
    hide Segments, Compile, AllPlain, RunTruthful, Lines, Run, CacheFreeRun, Good;
    LogsHistoryFree(Config(st), es);
    CachesDoNotShow(env, st, es);
    CacheFreeLines(env, Config(st), now, es);
  }

  /**
   A formatter that is constructed for a pattern of plain segments writes into
   every message of a run what the segments mean at the time of the message, on
   the clock it was constructed for, and the end of line: if the fields it pads
   declare their size and the first message that needs the time is not in second
   zero.
   */
  lemma RunWritten(env: Env, now: int, pattern: string, timeType: TimeType, eol: string, handlers: Handlers,
                   es: seq<Event>)
    requires AllPlain(handlers, Segments("", pattern)) && forall e | e in es :: e.Log?
    requires RunTruthful(env, handlers, timeType, Segments("", pattern), es)
    requires FirstTimed(NewState(now, pattern, timeType, eol, handlers), es)
    ensures Run(env, NewState(now, pattern, timeType, eol, handlers), es) ==
            Some(Lines(env, handlers, timeType, eol, Segments("", pattern), es))
  {
    hide Segments, Compile, PatternNeeds, AllPlain, RunTruthful, Lines, Run, Good, Warm;
    NewStateGood(env, now, pattern, timeType, eol, handlers);
    StateWritten(env, NewState(now, pattern, timeType, eol, handlers), now, es);
  }

  /**
   Behind a new pattern, whatever the formatter was used for before, every message
   has what the new pattern means with the flags that were added so far; clock and
   end of line are those of the construction.
   */
  lemma PatternReplaced(env: Env, st: State, pattern: string, now: int, es: seq<Event>)
    requires Good(env, st) && AllPlain(st.handlers, Segments("", pattern)) && forall e | e in es :: e.Log?
    requires RunTruthful(env, st.handlers, st.timeType, Segments("", pattern), es)
    requires Warm(env, st) || FirstTimed(NewState(now, pattern, st.timeType, st.eol, st.handlers), es)
    ensures Run(env, st, [SetPattern(pattern, now)] + es) ==
            Some(Lines(env, st.handlers, st.timeType, st.eol, Segments("", pattern), es))
  {
    var e := SetPattern(pattern, now);
    var st' := Configure(st, e);
    ConfigureGood(env, st, e);
    assert ([e] + es)[1..] == es;
    hide Segments, Compile, PatternNeeds, AllPlain, RunTruthful, Lines, Good, Warm;
    FirstTimedConfig(NewState(now, pattern, st.timeType, st.eol, st.handlers), st', es);
    StateWritten(env, st', now, es);
  }

  // ------------------------------------------------------------ the two clocks

  /** The same system but for the clock that a formatter of this kind does not use. */
  function OtherClock(env: Env, timeType: TimeType, clock: int -> Tm): Env {
    match timeType
    case Local => env.(gmTm := clock)
    case Utc => env.(localTm := clock)
  }

  lemma FlagIgnoresClock(env: Env, other: Env, f: Flag, msg: Msg, tm: Tm, o: Output)
    requires other == env.(gmTm := other.gmTm, localTm := other.localTm)
    ensures FormatFlag(other, f, msg, tm, o) == FormatFlag(env, f, msg, tm, o)
  {
    hide TimeText, Padded, Basename;
  }

  lemma {:induction false} FlagsIgnoreClocks(env: Env, other: Env, fs: seq<Flag>, msg: Msg, tm: Tm, o: Output)
    requires other == env.(gmTm := other.gmTm, localTm := other.localTm)
    ensures FormatFlags(other, fs, msg, tm, o) == FormatFlags(env, fs, msg, tm, o)
    decreases |fs|
  {
    hide FormatFlag;
    if fs != [] {
      FlagIgnoresClock(env, other, fs[0], msg, tm, o);
      var first := FormatFlag(env, fs[0], msg, tm, o);
      if first.out.Some? { FlagsIgnoreClocks(env, other, fs[1..], msg, tm, first.out.value); }
    }
  }

  lemma FormatIgnoresClock(env: Env, st: State, clock: int -> Tm, msg: Msg, o: Output)
    ensures Format(OtherClock(env, st.timeType, clock), st, msg, o) == Format(env, st, msg, o)
    ensures Format(env, st, msg, o).Some? ==> Format(env, st, msg, o).value.state.timeType == st.timeType
  {
    hide FormatFlags;
    FlagsIgnoreClocks(env, OtherClock(env, st.timeType, clock), st.flags, msg, Refresh(env, st, msg).cachedTm, o);
  }

  /** Over any run and any patterns a formatter of local time never reads the UTC clock, and the other way round. */
  lemma {:induction false} OneClockOnly(env: Env, st: State, clock: int -> Tm, es: seq<Event>)
    ensures Run(OtherClock(env, st.timeType, clock), st, es) == Run(env, st, es)
    decreases |es|
  {
    hide Format, OtherClock;
    if es != [] {
      if es[0].Log? {
        FormatIgnoresClock(env, st, clock, es[0].msg, es[0].dest);
        var l := Format(env, st, es[0].msg, es[0].dest);
        if l.Some? { OneClockOnly(env, l.value.state, clock, es[1..]); }
      } else {
        ConfigureKeepsClock(st, es[0]);
        OneClockOnly(env, Configure(st, es[0]), clock, es[1..]);
      }
    }
  }

  lemma ConfigureKeepsClock(st: State, e: Event)
    ensures Configure(st, e).timeType == st.timeType
  {}

  /** A message that needs the time is written at its time on the clock of the formatter. */
  lemma MessageTime(env: Env, st: State, msg: Msg, o: Output)
    requires Good(env, st) && HistoryFree(st.flags) && st.needLocaltime && (Warm(env, st) || Secs(msg.time) != 0)
    ensures var l := Format(env, st, msg, o);
            var tm := if st.timeType == Local then env.localTm(Secs(msg.time)) else env.gmTm(Secs(msg.time));
            var out := ShowFlags(env, FreshAll(st.flags), msg, tm, o);
            l.Some? == out.Some? && (l.Some? ==> l.value.out == Put(out.value, st.eol))
  {
    hide Format, ShowFlags, FlagsGood;
    FormatAsFresh(env, st, msg, o);
  }
}
