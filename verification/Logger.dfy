/** A logger hands one formatter to all of its sinks: clones, and the original to the last. */
module Loggers {
  import opened LogFields
  import opened FormatterModel
  import opened FormatterTheorems
  import opened CloneTheorems
  import opened PatternFormatters

  class Sink {
    var formatter_: PatternFormatter

    constructor (formatter: PatternFormatter)
      ensures formatter_ == formatter
    {
      formatter_ := formatter;
    }

    method SetFormatter(formatter: PatternFormatter)
      modifies this
      ensures formatter_ == formatter
    {
      formatter_ := formatter;
    }
  }

  class Logger {
    var sinks_: seq<Sink>

    constructor (sinks: seq<Sink>)
      ensures sinks_ == sinks
    {
      sinks_ := sinks;
    }

    /** A sink may be listed more than once; it keeps what it is given last. */
    method SetFormatter(f: PatternFormatter, now: int)
      requires f.Valid()
      modifies sinks_
      ensures forall s | s in sinks_ :: s.formatter_.Valid() && (s.formatter_ == f || fresh(s.formatter_))
      ensures forall s | s in sinks_ ::
                s.formatter_.View() == if s.formatter_ == f then f.View() else Clone(f.View(), now)
      ensures Distributed(sinks_, f.View(), now)
      ensures forall s, t | s in sinks_ && t in sinks_ && s != t :: s.formatter_ != t.formatter_
      ensures sinks_ != [] ==> sinks_[|sinks_| - 1].formatter_ == f
    {
      hide Clone;
      var i := 0;
      while i < |sinks_|
        invariant i <= |sinks_|
        invariant i < |sinks_| ==> forall s | s in sinks_[..i] :: fresh(s.formatter_)
        invariant i == |sinks_| != 0 ==> sinks_[i - 1].formatter_ == f
        invariant forall s | s in sinks_[..i] :: allocated(s.formatter_) && s.formatter_.Valid()
        invariant forall s | s in sinks_[..i] :: s.formatter_ == f || fresh(s.formatter_)
        invariant forall s | s in sinks_[..i] ::
                    s.formatter_.View() == if s.formatter_ == f then f.View() else Clone(f.View(), now)
        invariant forall s, t | s in sinks_[..i] && t in sinks_[..i] && s != t :: s.formatter_ != t.formatter_
      {
        assert forall s :: s in sinks_[..i + 1] <==> s in sinks_[..i] || s == sinks_[i];
        if i + 1 == |sinks_| {
          sinks_[i].SetFormatter(f);
        } else {
          var clone := f.CloneFormatter(now);
          sinks_[i].SetFormatter(clone);
        }
        i := i + 1;
      }
      assert sinks_[..i] == sinks_;
    }

    /** A new formatter for a pattern, and clones of it, for all sinks. */
    method ResetPattern(now: int, later: int, pattern: string, timeType: TimeType, eol: string)
      modifies sinks_
      ensures forall s | s in sinks_ :: s.formatter_.Valid() && fresh(s.formatter_)
      ensures var st := NewState(now, pattern, timeType, eol, map[]);
              Distributed(sinks_, st, later)
      ensures forall s, t | s in sinks_ && t in sinks_ && s != t :: s.formatter_ != t.formatter_
    {
      var newFormatter := new PatternFormatter(now, pattern, timeType, eol, map[]);
      SetFormatter(newFormatter, later);
    }
  }

  /** Every sink has a formatter in the given state, or a clone of one. */
  ghost predicate Distributed(sinks: seq<Sink>, st: State, later: int)
    reads sinks, set s | s in sinks :: s.formatter_
  {
    forall s | s in sinks :: s.formatter_.View() in {st, Clone(st, later)}
  }

  /**
   A formatter that was constructed and used in any way is handed to a logger. If
   no added flag is pending then, all sinks print every later run alike.
   */
  lemma SinksPrintAlike(env: Env, start: State, now: int, past: seq<Event>, st: State, later: int,
                        sinks: seq<Sink>, future: seq<Event>)
    requires Reaches(env, start, now, past, st) && NonePending(start, past, st)
    requires Distributed(sinks, st, later)
    requires HistoryFreeRun(Config(st), future) && TimesAgree(env, st, future)
    ensures forall s | s in sinks :: Run(env, s.formatter_.View(), future) == Run(env, st, future)
  {
    hide Reaches, NonePending, Run, Clone, HistoryFreeRun, TimesAgree, Config;
    CloneEquivalent(env, start, now, past, st, later, future);
  }

  /** A pattern that is set on a logger makes all its sinks print alike, from second zero on. */
  lemma PatternSinksPrintAlike(env: Env, now: int, later: int, pattern: string, timeType: TimeType, eol: string,
                               sinks: seq<Sink>, future: seq<Event>)
    requires Distributed(sinks, NewState(now, pattern, timeType, eol, map[]), later)
    requires HistoryFreeRun(NewState(now, pattern, timeType, eol, map[]), future)
    ensures forall s, t | s in sinks && t in sinks ::
              Run(env, s.formatter_.View(), future) == Run(env, t.formatter_.View(), future)
  {
    hide Run, Clone, Compile, PatternNeeds, HistoryFreeRun, Distributed;
    var st := NewState(now, pattern, timeType, eol, map[]);
    CompileFresh(map[], now, pattern);
    StartsReached(env, st, now);
    SinksPrintAlike(env, st, now, [], st, later, sinks, future);
  }

  lemma StartsReached(env: Env, st: State, now: int)
    requires IsNew(st, now)
    ensures Reaches(env, st, now, [], st) && NonePending(st, [], st)
  {}
}
