/**
 The flags that remember: the elapsed time since the message before, and the
 offset of the time zone, which is looked up at most every ten seconds.
 */
module HistoryFlags {
  import opened Wrappers
  import opened Padding
  import opened LogFields
  import opened FieldTexts
  import opened FormatterModel
  import opened FormatterTheorems
  import opened PatternMeaning

  ghost predicate LogsOnly(es: seq<Event>) {
    forall e | e in es :: e.Log?
  }

  /** One flag, one message: the flag is all that the message changes but the time caches. */
  lemma OneFlagFormat(env: Env, st: State, msg: Msg, o: Output)
    requires |st.flags| == 1
    ensures var st' := Refresh(env, st, msg);
            var r := FormatFlag(env, st.flags[0], msg, st'.cachedTm, o);
            Format(env, st, msg, o) ==
            if r.out.None? then None else Some(Logged(st'.(flags := [r.flag]), Put(r.out.value, st.eol)))
  {
    hide FormatFlag;
    assert st.flags == [st.flags[0]];
    OneFlag(env, st.flags[0], msg, Refresh(env, st, msg).cachedTm, o);
  }

  // ------------------------------------------------------------------- elapsed

  /** A duration in whole units, none if the time went back. */
  predicate WholeUnits(count: nat, unit: nat, duration: int) {
    if duration <= 0 then count == 0 else count * unit <= duration < (count + 1) * unit
  }

  /** The durations from one message to the next, in whole units. */
  function Waits(last: int, unit: Unit, es: seq<Event>): (counts: seq<nat>)
    requires forall e | e in es :: e.Log?
    ensures |counts| == |es|
    decreases |es|
  {
    if es == [] then []
    else
      assert es[0] in es;
      [Elapsed(unit, last, es[0].msg.time)] + Waits(es[0].msg.time, unit, es[1..])
  }

  /** Each number is the time between its message and the one before, or the compilation. */
  lemma {:induction false} WaitsExactly(last: int, unit: Unit, es: seq<Event>, i: nat)
    requires LogsOnly(es) && i < |es|
    ensures es[i].Log? && (i > 0 ==> es[i - 1].Log?)
    ensures WholeUnits(Waits(last, unit, es)[i], unit, es[i].msg.time - (if i == 0 then last else es[i - 1].msg.time))
    decreases i
  {
    assert es[0] in es && es[i] in es;
    if i > 0 {
      assert es[i - 1] in es && es[i] == es[1..][i - 1];
      WaitsExactly(es[0].msg.time, unit, es[1..], i - 1);
    }
  }

  function Sum(counts: seq<nat>): nat {
    if counts == [] then 0 else counts[0] + Sum(counts[1..])
  }

  /** The time never goes back. */
  ghost predicate Forward(last: int, es: seq<Event>)
    decreases |es|
  {
    es != [] ==> es[0].Log? && last <= es[0].msg.time && Forward(es[0].msg.time, es[1..])
  }

  /** In nanoseconds the durations of a run that does not go back add up to the whole of it. */
  lemma {:induction false} WaitsAddUp(last: int, es: seq<Event>)
    requires LogsOnly(es) && Forward(last, es)
    ensures es != [] ==> es[|es| - 1].Log?
    ensures Sum(Waits(last, 1, es)) == if es == [] then 0 else es[|es| - 1].msg.time - last
    decreases |es|
  {
    if es != [] {
      assert es[|es| - 1] in es && es[0] in es;
      WaitsAddUp(es[0].msg.time, es[1..]);
      var counts := Waits(last, 1, es);
      assert counts[1..] == Waits(es[0].msg.time, 1, es[1..]);
    }
  }

  /** The messages with these numbers. */
  function Counted(es: seq<Event>, counts: seq<nat>, eol: string): (outs: seq<Output>)
    requires |counts| == |es| && forall e | e in es :: e.Log?
    ensures |outs| == |es|
  {
    seq(|es|, i requires 0 <= i < |es| => assert es[i] in es; Put(es[i].dest, Decimal(counts[i]) + eol))
  }

  lemma ElapsedFormat(env: Env, st: State, unit: Unit, last: int, e: Event)
    requires e.Log? && st.flags == [ElapsedFlag(unit, last, NO_PADDING)]
    ensures Format(env, st, e.msg, e.dest) ==
            Some(Logged(Refresh(env, st, e.msg).(flags := [ElapsedFlag(unit, e.msg.time, NO_PADDING)]),
                        Put(e.dest, Decimal(Elapsed(unit, last, e.msg.time)) + st.eol)))
  {
    hide Format, Decimal, Elapsed, Refresh;
    OneFlagFormat(env, st, e.msg, e.dest);
    var text := Decimal(Elapsed(unit, last, e.msg.time));
    assert e.dest.text + text + st.eol == e.dest.text + (text + st.eol);
  }

  lemma {:induction false} ElapsedRun(env: Env, st: State, unit: Unit, last: int, es: seq<Event>)
    requires LogsOnly(es) && st.flags == [ElapsedFlag(unit, last, NO_PADDING)]
    ensures Run(env, st, es) == Some(Counted(es, Waits(last, unit, es), st.eol))
    decreases |es|
  {
    hide Format, Decimal, Elapsed;
    var outs := Counted(es, Waits(last, unit, es), st.eol);
    if es == [] {
      assert outs == [];
    } else {
      assert es[0] in es;
      var e := es[0];
      ElapsedFormat(env, st, unit, last, e);
      var st' := Format(env, st, e.msg, e.dest).value.state;
      RefreshKeeps(env, st, e.msg);
      ElapsedRun(env, st', unit, e.msg.time, es[1..]);
      var counts := Waits(last, unit, es);
      assert counts[1..] == Waits(e.msg.time, unit, es[1..]);
      assert outs == [outs[0]] + Counted(es[1..], counts[1..], st.eol);
    }
  }

  lemma RefreshKeeps(env: Env, st: State, msg: Msg)
    ensures var st' := Refresh(env, st, msg);
            st'.eol == st.eol && st'.timeType == st.timeType && st'.needLocaltime == st.needLocaltime
  {}

  /** The flags of the elapsed time count nanoseconds, microseconds, milliseconds and seconds. */
  predicate CountsIn(c: char, unit: nat) {
    || (c == 'u' && unit == 1)
    || (c == 'i' && unit == 1_000)
    || (c == 'o' && unit == 1_000_000)
    || (c == 'O' && unit == 1_000_000_000)
  }

  /** Over any run each message has the whole units since the one before; the first since the compilation. */
  lemma ElapsedRuns(env: Env, now: int, c: char, unit: Unit, timeType: TimeType, eol: string, es: seq<Event>)
    requires CountsIn(c, unit) && LogsOnly(es)
    ensures Run(env, NewState(now, "%" + [c], timeType, eol, map[]), es) ==
            Some(Counted(es, Waits(now, unit, es), eol))
  {
    hide Run, Compile, PatternNeeds, Waits, Counted;
    CompileOne(map[], now, c);
    ElapsedRun(env, NewState(now, "%" + [c], timeType, eol, map[]), unit, now, es);
  }

  // ---------------------------------------------------------------------- zone

  /** Sign, hours and minutes of an offset are read back from its text. */
  lemma ZoneReads(minutes: int)
    requires -6000 < minutes < 6000
    ensures |ZoneText(minutes)| == 6 && (ZoneText(minutes)[0] == if minutes < 0 then '-' else '+')
    ensures exists h, m :: Reads(ZoneText(minutes)[1..3], h) && Reads(ZoneText(minutes)[4..6], m) &&
                           0 <= m < 60 && minutes == (if minutes < 0 then -(60 * h + m) else 60 * h + m)
    ensures ZoneText(minutes)[3] == ':'
  {
    var n := if minutes < 0 then -minutes else minutes;
    Pad2Reads(n / 60);
    Pad2Reads(n % 60);
    hide Pad2, Reads;
    var text := ZoneText(minutes);
    assert text[1..3] == Pad2(n / 60) && text[4..6] == Pad2(n % 60);
    assert Reads(text[1..3], n / 60) && Reads(text[4..6], n % 60);
  }

  /** The message has the offset at the time of a message that is less than ten seconds older. */
  ghost predicate RecentZone(env: Env, timeType: TimeType, eol: string, seen: seq<Event>, e: Event, out: Output) {
    e.Log? && exists s | s in seen && s.Log? ::
                e.msg.time - s.msg.time < 10_000_000_000 &&
                out == Put(e.dest, ZoneText(env.utcOffset(TimeOf(env, timeType, s.msg))) + eol)
  }

  ghost predicate RecentZones(env: Env, timeType: TimeType, eol: string, before: seq<Event>, es: seq<Event>,
                              outs: seq<Output>) {
    |outs| == |es| && forall i | 0 <= i < |es| :: RecentZone(env, timeType, eol, before + es[..i + 1], es[i], outs[i])
  }

  /** The zone flag behind the message that looked its offset up. */
  function ZoneFlagOf(env: Env, timeType: TimeType, msg: Msg): Flag {
    ZoneFlag(msg.time, env.utcOffset(TimeOf(env, timeType, msg)), NO_PADDING)
  }

  lemma ZoneFormat(env: Env, st: State, seen: Event, e: Event)
    requires seen.Log? && e.Log? && st.flags == [ZoneFlagOf(env, st.timeType, seen.msg)]
    requires st.needLocaltime && Warm(env, st)
    ensures var s := if e.msg.time - seen.msg.time >= 10_000_000_000 then e else seen;
            Format(env, st, e.msg, e.dest) ==
            Some(Logged(Refresh(env, st, e.msg).(flags := [ZoneFlagOf(env, st.timeType, s.msg)]),
                        Put(e.dest, ZoneText(env.utcOffset(TimeOf(env, st.timeType, s.msg))) + st.eol)))
  {
    hide Format, ZoneText;
    OneFlagFormat(env, st, e.msg, e.dest);
    var s := if e.msg.time - seen.msg.time >= 10_000_000_000 then e else seen;
    assert Refresh(env, st, e.msg).cachedTm == TimeOf(env, st.timeType, e.msg);
    hide Refresh;
    var text := ZoneText(env.utcOffset(TimeOf(env, st.timeType, s.msg)));
    assert e.dest.text + text + st.eol == e.dest.text + (text + st.eol);
  }

  lemma RecentZonesCons(env: Env, timeType: TimeType, eol: string, before: seq<Event>, e: Event, rest: seq<Event>,
                        out: Output, outs: seq<Output>)
    requires RecentZone(env, timeType, eol, before + [e], e, out)
    requires RecentZones(env, timeType, eol, before + [e], rest, outs)
    ensures RecentZones(env, timeType, eol, before, [e] + rest, [out] + outs)
  {
    hide RecentZone;
    var es := [e] + rest;
    forall i | 0 <= i < |es| ensures RecentZone(env, timeType, eol, before + es[..i + 1], es[i], ([out] + outs)[i]) {
      if i == 0 {
        assert es[..1] == [e];
      } else {
        assert before + [e] + rest[..i] == before + es[..i + 1];
        assert RecentZone(env, timeType, eol, before + [e] + rest[..i], rest[i - 1], outs[i - 1]);
      }
    }
  }

  lemma RunStep(env: Env, st: State, e: Event, rest: seq<Event>, l: Logged)
    requires e.Log? && Format(env, st, e.msg, e.dest) == Some(l)
    ensures Run(env, st, [e] + rest) ==
            match Run(env, l.state, rest)
            case None => None
            case Some(outs) => Some([l.out] + outs)
  {
    hide Format;
    assert ([e] + rest)[1..] == rest;
  }

  lemma {:induction false} ZoneRun(env: Env, st: State, before: seq<Event>, seen: Event, es: seq<Event>)
    requires LogsOnly(es) && seen in before && seen.Log?
    requires st.flags == [ZoneFlagOf(env, st.timeType, seen.msg)] && st.needLocaltime && Warm(env, st)
    ensures Run(env, st, es).Some? && RecentZones(env, st.timeType, st.eol, before, es, Run(env, st, es).value)
    decreases |es|
  {
    if es != [] {
      hide Run, Format, ZoneText, Refresh, ZoneFlagOf, Warm, RecentZones;
      var e, rest := es[0], es[1..];
      assert e in es && es == [e] + rest;
      ZoneFormat(env, st, seen, e);
      RefreshKeeps(env, st, e.msg);
      WarmStays(env, st, e.msg);
      var l := Format(env, st, e.msg, e.dest).value;
      var s := if e.msg.time - seen.msg.time >= 10_000_000_000 then e else seen;
      WarmOf(env, Refresh(env, st, e.msg), l.state);
      ZoneRun(env, l.state, before + [e], s, rest);
      RunStep(env, st, e, rest, l);
      assert RecentZone(env, st.timeType, st.eol, before + [e], e, l.out) by { assert s in before + [e]; }
      RecentZonesCons(env, st.timeType, st.eol, before, e, rest, l.out, Run(env, l.state, rest).value);
    }
  }

  lemma WarmOf(env: Env, a: State, b: State)
    requires Warm(env, a) && b == a.(flags := b.flags)
    ensures Warm(env, b)
  {}

  lemma WarmStays(env: Env, st: State, msg: Msg)
    requires Warm(env, st)
    ensures Warm(env, Refresh(env, st, msg))
  {}

  lemma FirstZone(env: Env, st: State, e: Event)
    requires e.Log? && e.msg.time >= 10_000_000_000
    requires st.flags == [ZoneFlag(0, 0, NO_PADDING)] && st.needLocaltime && Cold(st)
    ensures Format(env, st, e.msg, e.dest) ==
            Some(Logged(Refresh(env, st, e.msg).(flags := [ZoneFlagOf(env, st.timeType, e.msg)]),
                        Put(e.dest, ZoneText(env.utcOffset(TimeOf(env, st.timeType, e.msg))) + st.eol)))
    ensures Warm(env, Refresh(env, st, e.msg))
  {
    hide Format, ZoneText;
    OneFlagFormat(env, st, e.msg, e.dest);
    assert Refresh(env, st, e.msg).cachedTm == TimeOf(env, st.timeType, e.msg);
    hide Refresh;
    var text := ZoneText(env.utcOffset(TimeOf(env, st.timeType, e.msg)));
    assert e.dest.text + text + st.eol == e.dest.text + (text + st.eol);
  }

  /**
   Over any run that begins ten seconds behind the epoch or later, the offset in
   a message is that at the time of a message of the run less than ten seconds
   older, or of the message itself.
   */
  lemma ZoneRuns(env: Env, now: int, timeType: TimeType, eol: string, es: seq<Event>)
    requires LogsOnly(es) && (es != [] ==> es[0].Log? && es[0].msg.time >= 10_000_000_000)
    ensures var r := Run(env, NewState(now, "%z", timeType, eol, map[]), es);
            r.Some? && RecentZones(env, timeType, eol, [], es, r.value)
  {
    hide Compile, PatternNeeds, Format, ZoneText, Refresh;
    assert "%z" == "%" + ['z'];
    CompileOne(map[], now, 'z');
    var st := NewState(now, "%z", timeType, eol, map[]);
    if es != [] {
      hide Run, ZoneFlagOf, Warm, RecentZones;
      var e, rest := es[0], es[1..];
      assert e in es && es == [e] + rest && [] + [e] == [e];
      FirstZone(env, st, e);
      RefreshKeeps(env, st, e.msg);
      var l := Format(env, st, e.msg, e.dest).value;
      WarmOf(env, Refresh(env, st, e.msg), l.state);
      ZoneRun(env, l.state, [e], e, rest);
      RunStep(env, st, e, rest, l);
      assert RecentZone(env, timeType, eol, [e], e, l.out) by { assert e in [e]; }
      RecentZonesCons(env, timeType, eol, [], e, rest, l.out, Run(env, l.state, rest).value);
    }
  }
}
