/**
 The pattern formatter as an object: it compiles its pattern character by
 character and formats message after message over its caches.
 */
module PatternFormatters {
  import opened Wrappers
  import opened Padding
  import opened LogFields
  import opened PatternGrammar
  import opened FormatterModel
  import opened FormatterTheorems

  /** A message on its way through the sinks; formatters note the colour range in it. */
  class LogMsg {
    const value: Msg
    var colorRangeStart: nat
    var colorRangeEnd: nat

    constructor (value: Msg)
      ensures this.value == value && colorRangeStart == 0 && colorRangeEnd == 0
    {
      this.value, colorRangeStart, colorRangeEnd := value, 0, 0;
    }
  }

  /** What a formatter writes to: the buffer, and the colour range of the message. */
  function OutputOf(dest: MemoryBuf, msg: LogMsg): Output
    reads dest, msg
  {
    Output(dest.text, msg.colorRangeStart, msg.colorRangeEnd)
  }

  class PatternFormatter {
    var pattern_: string
    var eol_: string
    var timeType_: TimeType
    var needLocaltime_: bool
    var cachedTm_: Tm
    var lastLogSecs_: int
    var formatters_: seq<Flag>
    var customHandlers_: Handlers

    function View(): State
      reads this
    {
      State(pattern_, eol_, timeType_, needLocaltime_, cachedTm_, lastLogSecs_, formatters_, customHandlers_)
    }

    /** Every width that was compiled is one the padder can serve. */
    ghost predicate Valid()
      reads this
    {
      forall f | f in formatters_ :: f.Valid()
    }

    constructor (now: int, pattern: string, timeType: TimeType, eol: string, handlers: Handlers)
      ensures Valid() && View() == NewState(now, pattern, timeType, eol, handlers)
    {
      pattern_, eol_, timeType_, needLocaltime_ := pattern, eol, timeType, false;
      cachedTm_, lastLogSecs_, formatters_, customHandlers_ := ZERO_TM, 0, [], handlers;
      new;
      CompilePattern(now, pattern);
    }

    constructor Default(timeType: TimeType, eol: string)
      ensures Valid() && View() == DefaultState(timeType, eol)
    {
      pattern_, eol_, timeType_, needLocaltime_ := "%+", eol, timeType, true;
      cachedTm_, lastLogSecs_, formatters_, customHandlers_ := ZERO_TM, 0, [FullFlag(0, "")], map[];
    }

    method AddFlagHandler(c: char, handler: Handler)
      requires Valid()
      modifies this
      ensures Valid() && View() == Configure(old(View()), AddFlag(c, handler))
    {
      customHandlers_ := customHandlers_[c := handler];
    }

    method ResetPattern(now: int, pattern: string)
      modifies this
      ensures Valid() && View() == Configure(old(View()), SetPattern(pattern, now))
    {
      pattern_ := pattern;
      needLocaltime_ := false;
      CompilePattern(now, pattern);
    }

    method NeedLocaltime(need: bool)
      requires Valid()
      modifies this
      ensures Valid() && View() == old(View()).(needLocaltime := need)
    {
      needLocaltime_ := need;
    }

    method CloneFormatter(now: int) returns (cloned: PatternFormatter)
      ensures fresh(cloned) && cloned.Valid() && cloned.View() == Clone(View(), now)
    {
      cloned := new PatternFormatter(now, pattern_, timeType_, eol_, customHandlers_);
      cloned.NeedLocaltime(needLocaltime_);
    }

    // ---------------------------------------------------------------- compiling

    method HandleFlag(now: int, flag: char, padding: PaddingInfo)
      modifies `formatters_, `needLocaltime_
      ensures formatters_ == old(formatters_) + FlagsOf(customHandlers_, now, flag, padding)
      ensures needLocaltime_ == (old(needLocaltime_) || Needs(customHandlers_, flag))
    {
      if flag in customHandlers_ {
        formatters_ := formatters_ + [CustomFlag(customHandlers_[flag], padding)];
        return;
      }
      match flag {
        case '+' =>
          formatters_ := formatters_ + [FullFlag(0, "")];
          needLocaltime_ := true;
        case 'z' =>
          formatters_ := formatters_ + [ZoneFlag(0, 0, padding)];
          needLocaltime_ := true;
        case '^' => formatters_ := formatters_ + [ColorStart];
        case '$' => formatters_ := formatters_ + [ColorStop];
        case '%' => formatters_ := formatters_ + [Chars("%")];
        case 'u' => formatters_ := formatters_ + [ElapsedFlag(1, now, padding)];
        case 'i' => formatters_ := formatters_ + [ElapsedFlag(1_000, now, padding)];
        case 'o' => formatters_ := formatters_ + [ElapsedFlag(1_000_000, now, padding)];
        case 'O' => formatters_ := formatters_ + [ElapsedFlag(SECOND, now, padding)];
        case _ => HandleFieldFlag(flag, padding);
      }
    }

    /** The flags of a padded field, and the unknown ones. */
    method HandleFieldFlag(flag: char, padding: PaddingInfo)
      requires flag !in {'+', 'z', '^', '$', '%', 'u', 'i', 'o', 'O'}
      modifies `formatters_, `needLocaltime_
      ensures formatters_ == old(formatters_) + BuiltIn(0, flag, padding)
      ensures needLocaltime_ == (old(needLocaltime_) || flag in TIME_FLAGS)
    {
      if flag in TIME_FLAGS {
        formatters_ := formatters_ + [FieldFlag(flag, padding)];
        needLocaltime_ := true;
      } else if flag in PLAIN_FLAGS {
        formatters_ := formatters_ + [FieldFlag(flag, padding)];
      } else {
        var unknownFlag := "";
        assert "" + "%" + [flag] == "%" + [flag] && "" + [flag] == [flag];
        if !padding.truncate {
          unknownFlag := unknownFlag + "%";
          unknownFlag := unknownFlag + [flag];
          formatters_ := formatters_ + [Chars(unknownFlag)];
        } else {
          formatters_ := formatters_ + [FieldFlag('!', padding.(truncate := false))];
          unknownFlag := unknownFlag + [flag];
          formatters_ := formatters_ + [Chars(unknownFlag)];
          assert formatters_ == old(formatters_) + [FieldFlag('!', padding.(truncate := false)), Chars([flag])];
        }
      }
    }

    method FlushUserChars(userChars: string)
      modifies `formatters_
      ensures formatters_ == old(formatters_) + Flags(customHandlers_, 0, Pending(userChars))
    {
      if userChars != "" {
        OneSegment(customHandlers_, 0, Literal(userChars));
        formatters_ := formatters_ + [Chars(userChars)];
      } else {
        assert formatters_ + [] == formatters_;
      }
    }

    /** One pass over the pattern; each turn consumes a character or a whole placeholder. */
    method CompilePattern(now: int, pattern: string)
      modifies `formatters_, `needLocaltime_
      ensures formatters_ == Compile(customHandlers_, now, pattern) && Valid()
      ensures needLocaltime_ == (old(needLocaltime_) || PatternNeeds(customHandlers_, pattern))
    {
      hide Segments, Flags, AnyNeeds, ReadSpec, FlagsOf, Needs;
      ghost var handlers, all := customHandlers_, Segments("", pattern);
      SegmentsValid("", pattern);
      formatters_ := [];
      var userChars, it, done := "", 0, false;
      assert pattern[0..] == pattern;
      while it < |pattern| && !done
        invariant it <= |pattern| && customHandlers_ == handlers
        invariant forall x | x in Segments(userChars, pattern[it..]) :: ValidSegment(x)
        invariant !done ==> Flags(handlers, now, all) ==
                            formatters_ + Flags(handlers, now, Segments(userChars, pattern[it..]))
        invariant !done ==> (AnyNeeds(handlers, all) || old(needLocaltime_)) ==
                            (needLocaltime_ || AnyNeeds(handlers, Segments(userChars, pattern[it..])))
        invariant done ==> userChars == "" && formatters_ == Flags(handlers, now, all)
        invariant done ==> needLocaltime_ == (AnyNeeds(handlers, all) || old(needLocaltime_))
        decreases |pattern| - it, !done
      {
        ghost var start, chars := it, userChars;
        if pattern[it] == '%' {
          ghost var before := formatters_;
          FlushUserChars(userChars);
          userChars := "";
          it := it + 1;
          var padding;
          padding, it := HandlePadspec(pattern, it);
          if it < |pattern| {
            HandleFlag(now, pattern[it], padding);
            PlaceholderTurn(handlers, now, chars, pattern, start, before);
            it := it + 1;
          } else {
            IncompleteTurn(handlers, now, chars, pattern, start, before);
            done := true;
          }
        } else {
          LiteralTurn(userChars, pattern, it);
          userChars := userChars + [pattern[it]];
          it := it + 1;
        }
        SegmentsValid(userChars, pattern[it..]);
      }
      if !done {
        assert pattern[it..] == "";
        EmptyPattern(userChars);
        PendingNeedsNothing(handlers, userChars);
        PendingIgnoresClock(handlers, now, userChars);
      }
      FlushUserChars(userChars);
      if done { assert Pending("") == []; NoSegments(handlers); }
      NeedExactly(handlers, now, pattern);
    }

    // --------------------------------------------------------------- formatting

    method FormatFull(env: Env, i: nat, msg: LogMsg, dest: MemoryBuf)
      requires i < |formatters_| && formatters_[i].FullFlag?
      modifies `formatters_, msg, dest
      ensures var r := FormatFlag(env, old(formatters_[i]), msg.value, cachedTm_, old(OutputOf(dest, msg)));
              formatters_ == old(formatters_)[i := r.flag] && Some(OutputOf(dest, msg)) == r.out
    {
      hide FullHead, FullTail, FullDate;
      var secs := Secs(msg.value.time);
      if formatters_[i].stamp != secs || formatters_[i].date == "" {
        var date := RenderDate(cachedTm_);
        formatters_ := formatters_[i := FullFlag(secs, date)];
      }
      dest.Append(formatters_[i].date);
      AppendHead(msg.value, dest);
      msg.colorRangeStart := |dest.text|;
      dest.Append(LevelName(msg.value.level));
      msg.colorRangeEnd := |dest.text|;
      AppendTail(env, msg.value, dest);
    }

    method FormatStateless(env: Env, f: Flag, msg: LogMsg, dest: MemoryBuf) returns (ok: bool)
      requires f.Valid() && (f.FieldFlag? || f.Chars? || f.ColorStart? || f.ColorStop? || f.CustomFlag?)
      modifies msg, dest
      ensures var r := FormatFlag(env, f, msg.value, cachedTm_, old(OutputOf(dest, msg)));
              r.flag == f && ok == r.out.Some? && (ok ==> Some(OutputOf(dest, msg)) == r.out)
    {
      hide Declared, FieldText, Padded;
      ok := true;
      match f {
        case FieldFlag(c, p) =>
          ok := AppendField(dest, Declared(c, env, msg.value, cachedTm_), p, FieldText(c, env, msg.value, cachedTm_));
        case Chars(text) => dest.Append(text);
        case ColorStart => msg.colorRangeStart := |dest.text|;
        case ColorStop => msg.colorRangeEnd := |dest.text|;
        case CustomFlag(handler, p) => dest.Append(handler(p, msg.value));
      }
    }

    method FormatHistory(env: Env, i: nat, msg: LogMsg, dest: MemoryBuf) returns (ok: bool)
      requires i < |formatters_| && formatters_[i].HistoryDependent() && formatters_[i].Valid()
      modifies `formatters_, dest
      ensures var r := FormatFlag(env, old(formatters_[i]), msg.value, cachedTm_, old(OutputOf(dest, msg)));
              formatters_ == old(formatters_)[i := r.flag] && ok == r.out.Some? &&
              (ok ==> Some(OutputOf(dest, msg)) == r.out)
    {
      hide Padded, ZoneText, Decimal;
      var time := msg.value.time;
      match formatters_[i] {
        case ZoneFlag(last, offset, p) =>
          var minutes := offset;
          if time - last >= 10 * SECOND {
            minutes := env.utcOffset(cachedTm_);
            formatters_ := formatters_[i := ZoneFlag(time, minutes, p)];
          }
          ok := AppendField(dest, 6, p, ZoneText(minutes));
        case ElapsedFlag(unit, last, p) =>
          var count := Elapsed(unit, last, time);
          formatters_ := formatters_[i := ElapsedFlag(unit, time, p)];
          var digits := CountDigits(count);
          ok := AppendField(dest, digits, p, Decimal(count));
      }
    }

    method FormatFlagAt(env: Env, i: nat, msg: LogMsg, dest: MemoryBuf) returns (ok: bool)
      requires i < |formatters_| && Valid()
      modifies `formatters_, msg, dest
      ensures Valid()
      ensures var r := FormatFlag(env, old(formatters_[i]), msg.value, cachedTm_, old(OutputOf(dest, msg)));
              formatters_ == old(formatters_)[i := r.flag] && ok == r.out.Some? &&
              (ok ==> Some(OutputOf(dest, msg)) == r.out)
    {
      hide FormatFlag;
      FormatFlagValid(env, formatters_[i], msg.value, cachedTm_, OutputOf(dest, msg));
      if formatters_[i].FullFlag? {
        FullGoesOn(env, formatters_[i], msg.value, cachedTm_, OutputOf(dest, msg));
        FormatFull(env, i, msg, dest);
        ok := true;
      } else if formatters_[i].HistoryDependent() {
        ok := FormatHistory(env, i, msg, dest);
      } else {
        ok := FormatStateless(env, formatters_[i], msg, dest);
        assert formatters_ == formatters_[i := formatters_[i]];
      }
    }

    method RefreshTime(env: Env, msg: Msg)
      modifies `cachedTm_, `lastLogSecs_
      ensures View() == Refresh(env, old(View()), msg)
    {
      if needLocaltime_ {
        var secs := Secs(msg.time);
        if secs != lastLogSecs_ {
          cachedTm_ := env.Time(timeType_, secs);
          lastLogSecs_ := secs;
        }
      }
    }

    /** The loop over the flags of the pattern. */
    method FormatAllFlags(env: Env, msg: LogMsg, dest: MemoryBuf) returns (ok: bool)
      requires Valid()
      modifies `formatters_, msg, dest
      ensures Valid()
      ensures var r := FormatFlags(env, old(formatters_), msg.value, cachedTm_, old(OutputOf(dest, msg)));
              ok == r.Some? && (ok ==> formatters_ == r.value.flags && OutputOf(dest, msg) == r.value.out)
    {
      hide FormatFlag, FormatFlags;
      ghost var fs, o := formatters_, OutputOf(dest, msg);
      var i := 0;
      NothingDone(FormatFlags(env, fs, msg.value, cachedTm_, o));
      assert fs[0..] == fs && fs[..0] == [];
      while i < |formatters_|
        invariant i <= |formatters_| == |fs| && Valid()
        invariant formatters_[i..] == fs[i..]
        invariant FormatFlags(env, fs, msg.value, cachedTm_, o) ==
                  Behind(formatters_[..i], FormatFlags(env, fs[i..], msg.value, cachedTm_, OutputOf(dest, msg)))
      {
        ghost var before := formatters_;
        assert fs[i] == fs[i..][0] == formatters_[i..][0] == formatters_[i];
        OneTurn(env, before[..i], fs[i..], msg.value, cachedTm_, OutputOf(dest, msg));
        ok := FormatFlagAt(env, i, msg, dest);
        if !ok { return; }
        assert formatters_[..i + 1] == before[..i] + [formatters_[i]];
        assert formatters_[i + 1..] == before[i + 1..] == before[i..][1..] == fs[i..][1..] == fs[i + 1..];
        i := i + 1;
      }
      AllDone(env, formatters_, fs[i..], msg.value, cachedTm_, OutputOf(dest, msg));
      assert formatters_[..i] == formatters_;
      ok := true;
    }

    /** `ok` is false if the program ends in a field that resizes the buffer to a negative size. */
    method FormatMessage(env: Env, msg: LogMsg, dest: MemoryBuf) returns (ok: bool)
      requires Valid()
      modifies this, msg, dest
      ensures Valid()
      ensures var l := Format(env, old(View()), msg.value, old(OutputOf(dest, msg)));
              ok == l.Some? && (ok ==> View() == l.value.state && OutputOf(dest, msg) == l.value.out)
    {
      hide FormatFlags, Refresh;
      RefreshTime(env, msg.value);
      ok := FormatAllFlags(env, msg, dest);
      if ok { dest.Append(eol_); }
    }
  }

  function Behind(done: seq<Flag>, r: Option<Rendered>): Option<Rendered> {
    match r
    case None => None
    case Some(v) => Some(Rendered(done + v.flags, v.out))
  }

  lemma NothingDone(r: Option<Rendered>)
    ensures Behind([], r) == r
  {
    if r.Some? { assert [] + r.value.flags == r.value.flags; }
  }

  lemma OneTurn(env: Env, done: seq<Flag>, fs: seq<Flag>, msg: Msg, tm: Tm, o: Output)
    requires fs != []
    ensures var r := FormatFlag(env, fs[0], msg, tm, o);
            Behind(done, FormatFlags(env, fs, msg, tm, o)) ==
            if r.out.None? then None else Behind(done + [r.flag], FormatFlags(env, fs[1..], msg, tm, r.out.value))
  {
    hide FormatFlag;
    var r := FormatFlag(env, fs[0], msg, tm, o);
    if r.out.Some? {
      var rest := FormatFlags(env, fs[1..], msg, tm, r.out.value);
      if rest.Some? { assert done + ([r.flag] + rest.value.flags) == done + [r.flag] + rest.value.flags; }
    }
  }

  lemma AllDone(env: Env, done: seq<Flag>, fs: seq<Flag>, msg: Msg, tm: Tm, o: Output)
    requires fs == []
    ensures Behind(done, FormatFlags(env, fs, msg, tm, o)) == Some(Rendered(done, o))
  {
    assert done + [] == done;
  }

  lemma FormatFlagValid(env: Env, f: Flag, msg: Msg, tm: Tm, o: Output)
    requires f.Valid()
    ensures FormatFlag(env, f, msg, tm, o).flag.Valid()
  {}

  lemma FullGoesOn(env: Env, f: Flag, msg: Msg, tm: Tm, o: Output)
    requires f.FullFlag?
    ensures FormatFlag(env, f, msg, tm, o).out.Some?
  {}

  // ------------------------------------------------- the pieces of the full format

  lemma Join(a: string, b: string, c: string)
    ensures a + b + c == a + (b + c)
  {}

  method AppendDate(tm: Tm, buf: MemoryBuf)
    modifies buf
    ensures buf.text == old(buf.text) + DateText(tm)
  {
    hide IntText, Pad2;
    ghost var t := buf.text;
    buf.Append(IntText(tm.year + 1900));
    buf.PushBack('-');
    assert buf.text == t + (IntText(tm.year + 1900) + "-");
    buf.Append(Pad2(tm.mon + 1));
    buf.PushBack('-');
    assert buf.text == t + (IntText(tm.year + 1900) + "-" + Pad2(tm.mon + 1) + "-");
    buf.Append(Pad2(tm.mday));
    Join(t, IntText(tm.year + 1900) + "-" + Pad2(tm.mon + 1) + "-", Pad2(tm.mday));
  }

  method AppendClock(tm: Tm, buf: MemoryBuf)
    modifies buf
    ensures buf.text == old(buf.text) + Clock(tm.hour, tm)
  {
    hide Pad2;
    ghost var t := buf.text;
    buf.Append(Pad2(tm.hour));
    buf.PushBack(':');
    assert buf.text == t + (Pad2(tm.hour) + ":");
    buf.Append(Pad2(tm.min));
    buf.PushBack(':');
    assert buf.text == t + (Pad2(tm.hour) + ":" + Pad2(tm.min) + ":");
    buf.Append(Pad2(tm.sec));
    Join(t, Pad2(tm.hour) + ":" + Pad2(tm.min) + ":", Pad2(tm.sec));
  }

  method RenderDate(tm: Tm) returns (date: string)
    ensures date == FullDate(tm)
  {
    hide DateText, Clock;
    var buf := new MemoryBuf();
    buf.PushBack('[');
    assert buf.text == "[";
    AppendDate(tm, buf);
    buf.PushBack(' ');
    AppendClock(tm, buf);
    buf.PushBack('.');
    date := buf.text;
  }

  method AppendHead(msg: Msg, dest: MemoryBuf)
    modifies dest
    ensures dest.text == old(dest.text) + FullHead(msg)
  {
    ghost var t := dest.text;
    var millis := Pad3(Fraction(msg.time, 1_000_000) % 0x1_0000_0000);
    dest.Append(millis);
    dest.PushBack(']');
    dest.PushBack(' ');
    assert dest.text == t + (millis + "] ");
    ghost var name := if msg.loggerName != "" then "[" + msg.loggerName + "] " else "";
    if msg.loggerName != "" {
      dest.PushBack('[');
      dest.Append(msg.loggerName);
      dest.PushBack(']');
      dest.PushBack(' ');
    }
    assert dest.text == t + (millis + "] " + name);
    dest.PushBack('[');
    Join(t, millis + "] " + name, "[");
  }

  method AppendBracketed(name: string, line: string, dest: MemoryBuf)
    modifies dest
    ensures dest.text == old(dest.text) + ("[" + name + ":" + line + "] ")
  {
    ghost var t := dest.text;
    dest.PushBack('[');
    dest.Append(name);
    dest.PushBack(':');
    assert dest.text == t + ("[" + name + ":");
    dest.Append(line);
    Join(t, "[" + name + ":", line);
    dest.PushBack(']');
    dest.PushBack(' ');
    Join(t, "[" + name + ":" + line, "] ");
  }

  method AppendPlace(env: Env, source: Source, dest: MemoryBuf)
    modifies dest
    ensures dest.text == old(dest.text) + PlaceText(env, source)
  {
    hide IntText, Basename;
    if source.Empty() {
      assert dest.text + "" == dest.text;
    } else {
      AppendBracketed(Basename(env.folderSeps, source.filename), IntText(source.line), dest);
    }
  }

  method AppendTail(env: Env, msg: Msg, dest: MemoryBuf)
    modifies dest
    ensures dest.text == old(dest.text) + FullTail(env, msg)
  {
    hide PlaceText;
    ghost var t := dest.text;
    dest.PushBack(']');
    dest.PushBack(' ');
    assert dest.text == t + "] ";
    AppendPlace(env, msg.source, dest);
    Join(t, "] ", PlaceText(env, msg.source));
    dest.Append(msg.payload);
    Join(t, "] " + PlaceText(env, msg.source), msg.payload);
  }

  lemma NoSegments(handlers: Handlers)
    ensures Flags(handlers, 0, []) == []
  {}

  lemma PendingIgnoresClock(handlers: Handlers, now: int, chars: string)
    ensures Flags(handlers, now, Pending(chars)) == Flags(handlers, 0, Pending(chars))
  {
    if chars != "" {
      OneSegment(handlers, now, Literal(chars));
      OneSegment(handlers, 0, Literal(chars));
    }
  }

  lemma LiteralTurn(chars: string, pattern: string, it: nat)
    requires it < |pattern| && pattern[it] != '%'
    ensures Segments(chars, pattern[it..]) == Segments(chars + [pattern[it]], pattern[it + 1..])
  {
    assert pattern[it..] == [pattern[it]] + pattern[it + 1..];
    LiteralStep(chars, pattern[it], pattern[it + 1..]);
  }

  /** What the segments of one turn stand for. */
  lemma TurnFlags(handlers: Handlers, now: int, chars: string, x: Segment, rest: seq<Segment>, before: seq<Flag>)
    requires ValidSegment(x) && (forall y | y in rest :: ValidSegment(y))
    ensures forall y | y in Pending(chars) + [x] + rest :: ValidSegment(y)
    ensures before + Flags(handlers, now, Pending(chars) + [x] + rest) ==
            before + Flags(handlers, 0, Pending(chars)) + SegmentFlags(handlers, now, x) + Flags(handlers, now, rest)
  {
    hide Flags, SegmentFlags, FlagsOf;
    PendingIgnoresClock(handlers, now, chars);
    FlagsConcat(handlers, now, Pending(chars) + [x], rest);
    FlagsConcat(handlers, now, Pending(chars), [x]);
    OneSegment(handlers, now, x);
    AssociateFlags(before, Flags(handlers, 0, Pending(chars)), Flags(handlers, now, [x]), Flags(handlers, now, rest));
  }

  lemma TurnSegments(chars: string, pattern: string, it: nat)
    requires it < |pattern| && pattern[it] == '%'
    requires it + 1 + |ReadSpec(pattern[it + 1..]).Text()| < |pattern|
    ensures var spec := ReadSpec(pattern[it + 1..]);
            var n := it + 1 + |spec.Text()|;
            Segments(chars, pattern[it..]) ==
            Pending(chars) + [Placeholder(spec, pattern[n])] + Segments("", pattern[n + 1..])
  {
    hide Segments, ReadSpec, Spec.Text, Pending;
    var s := pattern[it..];
    assert s[1..] == pattern[it + 1..];
    var n := 1 + |ReadSpec(s[1..]).Text()|;
    assert s[n + 1..] == pattern[it + n + 1..] && s[n] == pattern[it + n];
    SegmentsOfPlaceholder(chars, s);
  }

  lemma PlaceholderTurn(handlers: Handlers, now: int, chars: string, pattern: string, it: nat, before: seq<Flag>)
    requires it < |pattern| && pattern[it] == '%'
    requires it + 1 + |ReadSpec(pattern[it + 1..]).Text()| < |pattern|
    ensures var spec := ReadSpec(pattern[it + 1..]);
            var n := it + 1 + |spec.Text()|;
            var rest := Segments("", pattern[n + 1..]);
            var segments := Segments(chars, pattern[it..]);
            && (forall x | x in rest :: ValidSegment(x)) && (forall x | x in segments :: ValidSegment(x))
            && before + Flags(handlers, now, segments) ==
               before + Flags(handlers, 0, Pending(chars)) + FlagsOf(handlers, now, pattern[n], spec.Padding()) +
               Flags(handlers, now, rest)
            && AnyNeeds(handlers, segments) == (Needs(handlers, pattern[n]) || AnyNeeds(handlers, rest))
  {
    hide Segments, ReadSpec, Spec.Text, Spec.Padding, Pending, Flags, FlagsOf, Needs, AnyNeeds;
    var spec := ReadSpec(pattern[it + 1..]);
    var n := it + 1 + |spec.Text()|;
    var x, rest := Placeholder(spec, pattern[n]), Segments("", pattern[n + 1..]);
    TurnSegments(chars, pattern, it);
    SegmentsValid(chars, pattern[it..]);
    SegmentsValid("", pattern[n + 1..]);
    TurnFlags(handlers, now, chars, x, rest, before);
    AnyNeedsPieces(handlers, chars, x, rest);
  }

  lemma IncompleteTurn(handlers: Handlers, now: int, chars: string, pattern: string, it: nat, before: seq<Flag>)
    requires it < |pattern| && pattern[it] == '%'
    requires it + 1 + |ReadSpec(pattern[it + 1..]).Text()| == |pattern|
    ensures var segments := Segments(chars, pattern[it..]);
            && (forall x | x in segments :: ValidSegment(x))
            && before + Flags(handlers, now, segments) == before + Flags(handlers, 0, Pending(chars))
            && !AnyNeeds(handlers, segments)
  {
    hide Flags;
    var s := pattern[it..];
    assert s[1..] == pattern[it + 1..];
    var x := Incomplete(ReadSpec(s[1..]));
    SegmentsValid(chars, s);
    PendingIgnoresClock(handlers, now, chars);
    FlagsConcat(handlers, now, Pending(chars), [x]);
    OneSegment(handlers, now, x);
  }

  lemma AssociateFlags(a: seq<Flag>, b: seq<Flag>, c: seq<Flag>, d: seq<Flag>)
    ensures a + (b + c + d) == a + b + c + d
  {}
}
