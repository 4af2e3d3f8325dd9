/**
 The pattern formatter as a state machine on values: what a pattern compiles
 to, what one message prints and does to the caches, and whole runs.
 */
module FormatterModel {
  import opened Wrappers
  import opened Padding
  import opened LogFields
  import opened PatternGrammar

  /** A custom flag: what it prints for a padding and a message. */
  type Handler = (PaddingInfo, Msg) -> string
  type Handlers = map<char, Handler>
  type Unit = n: nat | 0 < n <= SECOND witness 1

  datatype Flag =
    | FullFlag(stamp: int, date: string)
    | FieldFlag(flag: char, padding: PaddingInfo)
    | Chars(text: string)
    | ColorStart
    | ColorStop
    | CustomFlag(handler: Handler, padding: PaddingInfo)
    | ZoneFlag(lastUpdate: int, offset: int, padding: PaddingInfo)
    | ElapsedFlag(unit: Unit, lastTime: int, padding: PaddingInfo)
  {
    predicate Valid() {
      (FieldFlag? || ZoneFlag? || ElapsedFlag?) ==> padding.Valid()
    }

    predicate ReadsTime() {
      FullFlag? || ZoneFlag? || (FieldFlag? && flag in TIME_FLAGS)
    }

    /** What it prints depends on the messages before. */
    predicate HistoryDependent() {
      ZoneFlag? || ElapsedFlag?
    }

    /** The flag with nothing in its cache. */
    function Fresh(): Flag {
      if FullFlag? then FullFlag(0, "") else this
    }

    function Unpadded(): Flag {
      if FieldFlag? || ZoneFlag? || ElapsedFlag? then this.(padding := NO_PADDING) else this
    }
  }

  // ---------------------------------------------------------------- compiling

  /** The built-in meaning of a flag character. */
  function BuiltIn(now: int, c: char, p: PaddingInfo): seq<Flag> {
    match c
    case '+' => [FullFlag(0, "")]
    case 'z' => [ZoneFlag(0, 0, p)]
    case '^' => [ColorStart]
    case '$' => [ColorStop]
    case '%' => [Chars("%")]
    case 'u' => [ElapsedFlag(1, now, p)]
    case 'i' => [ElapsedFlag(1_000, now, p)]
    case 'o' => [ElapsedFlag(1_000_000, now, p)]
    case 'O' => [ElapsedFlag(SECOND, now, p)]
    case _ =>
      if c in TIME_FLAGS || c in PLAIN_FLAGS then [FieldFlag(c, p)]
      else if !p.truncate then [Chars("%" + [c])]
      else [FieldFlag('!', p.(truncate := false)), Chars([c])]
  }

  function FlagsOf(handlers: Handlers, now: int, c: char, p: PaddingInfo): seq<Flag> {
    if c in handlers then [CustomFlag(handlers[c], p)] else BuiltIn(now, c, p)
  }

  /** A flag character sets the need for the broken-down time. */
  predicate Needs(handlers: Handlers, c: char) {
    c !in handlers && (c in TIME_FLAGS || c in {'+', 'z'})
  }

  predicate ValidSegment(x: Segment) {
    match x
    case Literal(_) => true
    case Placeholder(spec, _) => spec.Valid()
    case Incomplete(spec) => spec.Valid()
  }

  /** The meaning of one segment; an incomplete trailing spec is dropped. */
  function SegmentFlags(handlers: Handlers, now: int, x: Segment): seq<Flag>
    requires ValidSegment(x)
  {
    match x
    case Literal(s) => [Chars(s)]
    case Placeholder(spec, c) => FlagsOf(handlers, now, c, spec.Padding())
    case Incomplete(_) => []
  }

  function Flags(handlers: Handlers, now: int, segments: seq<Segment>): seq<Flag>
    requires forall x | x in segments :: ValidSegment(x)
  {
    if segments == [] then [] else SegmentFlags(handlers, now, segments[0]) + Flags(handlers, now, segments[1..])
  }

  predicate SegmentNeeds(handlers: Handlers, x: Segment) {
    x.Placeholder? && Needs(handlers, x.flag)
  }

  predicate AnyNeeds(handlers: Handlers, segments: seq<Segment>) {
    exists x | x in segments :: SegmentNeeds(handlers, x)
  }

  lemma {:induction false} SegmentsValid(pending: string, s: string)
    ensures forall x | x in Segments(pending, s) :: ValidSegment(x)
    decreases |s|
  {
    hide ReadSpec;
    if s == "" {
    } else if s[0] != '%' {
      SegmentsValid(pending + [s[0]], s[1..]);
    } else {
      PatternPieces(s);
      var n := 1 + |ReadSpec(s[1..]).Text()|;
      if n < |s| { SegmentsValid("", s[n + 1..]); }
    }
  }

  function Compile(handlers: Handlers, now: int, pattern: string): seq<Flag> {
    SegmentsValid("", pattern);
    Flags(handlers, now, Segments("", pattern))
  }

  predicate PatternNeeds(handlers: Handlers, pattern: string) {
    AnyNeeds(handlers, Segments("", pattern))
  }

  lemma FlagsOfNeedExactly(handlers: Handlers, now: int, c: char, p: PaddingInfo)
    requires p.Valid()
    ensures (exists f | f in FlagsOf(handlers, now, c, p) :: f.ReadsTime()) <==> Needs(handlers, c)
    ensures forall f | f in FlagsOf(handlers, now, c, p) :: f.Valid()
  {
    var fs := FlagsOf(handlers, now, c, p);
    if Needs(handlers, c) { assert fs[0].ReadsTime(); }
  }

  lemma {:induction false} FlagsNeedExactly(handlers: Handlers, now: int, segments: seq<Segment>)
    requires forall x | x in segments :: ValidSegment(x)
    ensures (exists f | f in Flags(handlers, now, segments) :: f.ReadsTime()) <==> AnyNeeds(handlers, segments)
    ensures forall f | f in Flags(handlers, now, segments) :: f.Valid()
  {
    if segments != [] {
      var x, rest := segments[0], segments[1..];
      var first, others := SegmentFlags(handlers, now, x), Flags(handlers, now, rest);
      FlagsNeedExactly(handlers, now, rest);
      if x.Placeholder? { FlagsOfNeedExactly(handlers, now, x.flag, x.spec.Padding()); }
      assert (exists f | f in first :: f.ReadsTime()) <==> SegmentNeeds(handlers, x);
      assert AnyNeeds(handlers, segments) <==> SegmentNeeds(handlers, x) || AnyNeeds(handlers, rest);
      assert forall f :: f in first + others <==> f in first || f in others;
    }
  }

  /** The time is asked for exactly if a compiled flag reads it. */
  lemma NeedExactly(handlers: Handlers, now: int, pattern: string)
    ensures PatternNeeds(handlers, pattern) <==> exists f | f in Compile(handlers, now, pattern) :: f.ReadsTime()
    ensures forall f | f in Compile(handlers, now, pattern) :: f.Valid()
  {
    SegmentsValid("", pattern);
    FlagsNeedExactly(handlers, now, Segments("", pattern));
  }

  // --------------------------------------------------------------- formatting

  /** The buffer and the colour range of the message. */
  datatype Output = Output(text: string, colorStart: nat, colorEnd: nat)

  function Put(o: Output, s: string): Output {
    o.(text := o.text + s)
  }

  function PutField(o: Output, declared: nat, p: PaddingInfo, text: string): Option<Output> {
    match Padded(o.text, declared, p, text)
    case None => None
    case Some(t) => Some(o.(text := t))
  }

  function PutFull(env: Env, date: string, msg: Msg, o: Output): Output {
    var head := o.text + date + FullHead(msg);
    var level := head + LevelName(msg.level);
    Output(level + FullTail(env, msg), |head|, |level|)
  }

  function ZoneText(minutes: int): string {
    var m := if minutes < 0 then -minutes else minutes;
    (if minutes < 0 then "-" else "+") + Pad2(m / 60) + ":" + Pad2(m % 60)
  }

  function Elapsed(unit: Unit, since: int, time: int): nat {
    if time > since then (time - since) / unit else 0
  }

  /** A flag after a message, and the output if the program goes on. */
  datatype Formatted = Formatted(flag: Flag, out: Option<Output>)

  function FormatFlag(env: Env, f: Flag, msg: Msg, tm: Tm, o: Output): Formatted {
    match f
    case FullFlag(stamp, date) =>
      var f' := if stamp != Secs(msg.time) || date == "" then FullFlag(Secs(msg.time), FullDate(tm)) else f;
      Formatted(f', Some(PutFull(env, f'.date, msg, o)))
    case FieldFlag(c, p) => Formatted(f, PutField(o, Declared(c, env, msg, tm), p, FieldText(c, env, msg, tm)))
    case Chars(s) => Formatted(f, Some(Put(o, s)))
    case ColorStart => Formatted(f, Some(o.(colorStart := |o.text|)))
    case ColorStop => Formatted(f, Some(o.(colorEnd := |o.text|)))
    case CustomFlag(handler, p) => Formatted(f, Some(Put(o, handler(p, msg))))
    case ZoneFlag(last, offset, p) =>
      var f' := if msg.time - last >= 10 * SECOND then ZoneFlag(msg.time, env.utcOffset(tm), p) else f;
      Formatted(f', PutField(o, 6, p, ZoneText(f'.offset)))
    case ElapsedFlag(unit, last, p) =>
      var text := Decimal(Elapsed(unit, last, msg.time));
      Formatted(ElapsedFlag(unit, msg.time, p), PutField(o, |text|, p, text))
  }

  datatype Rendered = Rendered(flags: seq<Flag>, out: Output)

  function FormatFlags(env: Env, fs: seq<Flag>, msg: Msg, tm: Tm, o: Output): (r: Option<Rendered>)
    ensures r.Some? ==> |r.value.flags| == |fs|
  {
    if fs == [] then Some(Rendered([], o))
    else
      var first := FormatFlag(env, fs[0], msg, tm, o);
      match first.out
      case None => None
      case Some(o') =>
        match FormatFlags(env, fs[1..], msg, tm, o')
        case None => None
        case Some(r) => Some(Rendered([first.flag] + r.flags, r.out))
  }

  /** The fields of a formatter. */
  datatype State = State(
    pattern: string, eol: string, timeType: TimeType, needLocaltime: bool,
    cachedTm: Tm, lastLogSecs: int, flags: seq<Flag>, handlers: Handlers)

  function NewState(now: int, pattern: string, timeType: TimeType, eol: string, handlers: Handlers): State {
    State(pattern, eol, timeType, PatternNeeds(handlers, pattern), ZERO_TM, 0,
          Compile(handlers, now, pattern), handlers)
  }

  /** Without a pattern: the full format. */
  function DefaultState(timeType: TimeType, eol: string): State {
    State("%+", eol, timeType, true, ZERO_TM, 0, [FullFlag(0, "")], map[])
  }

  function Reset(st: State, now: int, pattern: string): State {
    st.(pattern := pattern, needLocaltime := PatternNeeds(st.handlers, pattern),
        flags := Compile(st.handlers, now, pattern))
  }

  function Clone(st: State, now: int): State {
    NewState(now, st.pattern, st.timeType, st.eol, st.handlers).(needLocaltime := st.needLocaltime)
  }

  /** Looks the time up when it is needed and the second has changed. */
  function Refresh(env: Env, st: State, msg: Msg): State {
    if st.needLocaltime && Secs(msg.time) != st.lastLogSecs then
      st.(cachedTm := env.Time(st.timeType, Secs(msg.time)), lastLogSecs := Secs(msg.time))
    else st
  }

  datatype Logged = Logged(state: State, out: Output)

  function Format(env: Env, st: State, msg: Msg, o: Output): Option<Logged> {
    var st' := Refresh(env, st, msg);
    match FormatFlags(env, st'.flags, msg, st'.cachedTm, o)
    case None => None
    case Some(r) => Some(Logged(st'.(flags := r.flags), Put(r.out, st.eol)))
  }

  // --------------------------------------------------------------------- runs

  datatype Event =
    | Log(msg: Msg, dest: Output)
    | SetPattern(pattern: string, now: int)
    | AddFlag(flag: char, handler: Handler)

  /** What an event does to the configuration; logging does nothing. */
  function Configure(st: State, e: Event): State {
    match e
    case Log(_, _) => st
    case SetPattern(p, now) => Reset(st, now, p)
    case AddFlag(c, h) => st.(handlers := st.handlers[c := h])
  }

  /** The outputs of a run; None if the program ends in it. */
  function Run(env: Env, st: State, es: seq<Event>): Option<seq<Output>>
    decreases |es|
  {
    if es == [] then Some([])
    else if es[0].Log? then
      match Format(env, st, es[0].msg, es[0].dest)
      case None => None
      case Some(l) =>
        (match Run(env, l.state, es[1..])
         case None => None
         case Some(outs) => Some([l.out] + outs))
    else Run(env, Configure(st, es[0]), es[1..])
  }

  // ------------------------------------------------------- without any caches

  function ShowFlags(env: Env, fs: seq<Flag>, msg: Msg, tm: Tm, o: Output): Option<Output> {
    if fs == [] then Some(o)
    else
      match FormatFlag(env, fs[0].Fresh(), msg, tm, o).out
      case None => None
      case Some(o') => ShowFlags(env, fs[1..], msg, tm, o')
  }

  /** Always looks the time up, always renders the date. */
  function Show(env: Env, st: State, msg: Msg, o: Output): Option<Output> {
    match ShowFlags(env, st.flags, msg, env.Time(st.timeType, Secs(msg.time)), o)
    case None => None
    case Some(out) => Some(Put(out, st.eol))
  }

  function CacheFreeRun(env: Env, st: State, es: seq<Event>): Option<seq<Output>>
    decreases |es|
  {
    if es == [] then Some([])
    else if es[0].Log? then
      match Show(env, st, es[0].msg, es[0].dest)
      case None => None
      case Some(out) =>
        (match CacheFreeRun(env, st, es[1..])
         case None => None
         case Some(outs) => Some([out] + outs))
    else CacheFreeRun(env, Configure(st, es[0]), es[1..])
  }
}
