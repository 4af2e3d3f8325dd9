/**
 Patterns as literal texts and placeholders in turn: how they are spelled, what
 is written when they are filled in, and when two of them agree.
 */
module Templates {
  import opened Wrappers
  import opened LogFields
  import opened PatternGrammar
  import opened FormatterModel
  import opened FormatterTheorems
  import opened PatternMeaning

  // ------------------------------------------------------------------ templates

  /** A pattern as literal texts and placeholders in turn. */
  datatype Template = Tail(text: string) | Item(text: string, spec: Spec, flag: char, rest: Template) {
    predicate Valid() {
      && '%' !in text
      && (Item? ==>
            && spec.Valid() && spec.Stops(flag) && flag !in {'+', 'z', 'u', 'i', 'o', 'O'}
            && rest.Valid())
    }

    /** No field is padded. */
    predicate Bare() {
      Item? ==> spec.digits == "" && rest.Bare()
    }

    function Spelling(): string {
      if Tail? then text else text + ("%" + spec.Text() + [flag] + rest.Spelling())
    }

    function Segments(): seq<Segment> {
      if Tail? then Pending(text) else Pending(text) + [Placeholder(spec, flag)] + rest.Segments()
    }

    /** The output when all is written. */
    function Fill(env: Env, msg: Msg, tm: Tm, o: Output): Output
      requires Valid()
    {
      if Tail? then Put(o, text)
      else rest.Fill(env, msg, tm, Written(env, map[], msg, tm, Put(o, text), Placeholder(spec, flag)))
    }
  }

  const BARE := Spec(None, "", false)

  /** A literal text, a flag without a spec, and the rest of the template. */
  function Then(text: string, flag: char, rest: Template): Template {
    Item(text, BARE, flag, rest)
  }

  lemma {:induction false} LiteralRun(pending: string, s: string, t: string)
    requires '%' !in s
    ensures Segments(pending, s + t) == Segments(pending + s, t)
    decreases |s|
  {
    hide Segments;
    if s == "" {
      assert s + t == t && pending + s == pending;
    } else {
      assert s + t == [s[0]] + (s[1..] + t);
      LiteralStep(pending, s[0], s[1..] + t);
      LiteralRun(pending + [s[0]], s[1..], t);
      assert pending + [s[0]] + s[1..] == pending + s;
    }
  }

  /** The segments of the spelling of a template. */
  lemma {:induction false} TemplateSegments(t: Template)
    requires t.Valid()
    ensures Segments("", t.Spelling()) == t.Segments()
  {
    hide Segments, Spec.Stops;
    match t
    case Tail(text) =>
      LiteralRun("", text, "");
      assert text + "" == text && "" + text == text;
      EmptyPattern(text);
    case Item(text, spec, flag, rest) =>
      LiteralRun("", text, "%" + spec.Text() + [flag] + rest.Spelling());
      assert "" + text == text;
      SegmentsAtPlaceholder(text, spec, flag, rest.Spelling());
      TemplateSegments(rest);
  }

  lemma PutNothing(o: Output)
    ensures Put(o, "") == o
  {
    assert o.text + "" == o.text;
  }

  lemma {:induction false} WrittenConcat(env: Env, msg: Msg, tm: Tm, o: Output, xs: seq<Segment>, ys: seq<Segment>)
    requires AllPlain(map[], xs) && AllPlain(map[], ys)
    ensures AllPlain(map[], xs + ys)
    ensures WrittenAll(env, map[], msg, tm, o, xs + ys) ==
            WrittenAll(env, map[], msg, tm, WrittenAll(env, map[], msg, tm, o, xs), ys)
    decreases |xs|
  {
    hide Written;
    if xs == [] {
      assert xs + ys == ys;
    } else {
      assert (xs + ys)[1..] == xs[1..] + ys && xs[0] in xs;
      WrittenConcat(env, msg, tm, Written(env, map[], msg, tm, o, xs[0]), xs[1..], ys);
    }
  }

  lemma PendingWritten(env: Env, msg: Msg, tm: Tm, o: Output, text: string)
    ensures AllPlain(map[], Pending(text))
    ensures WrittenAll(env, map[], msg, tm, o, Pending(text)) == Put(o, text)
  {
    PutNothing(o);
    if text != "" { assert Pending(text)[1..] == []; }
  }

  lemma {:induction false} TemplateWritten(env: Env, msg: Msg, tm: Tm, o: Output, t: Template)
    requires t.Valid()
    ensures AllPlain(map[], t.Segments())
    ensures WrittenAll(env, map[], msg, tm, o, t.Segments()) == t.Fill(env, msg, tm, o)
    ensures t.Bare() ==> AllTruthful(env, map[], msg, tm, t.Segments())
    decreases t
  {
    hide Written, Spec.Stops;
    match t
    case Tail(text) => PendingWritten(env, msg, tm, o, text);
    case Item(text, spec, flag, rest) =>
      var x := Placeholder(spec, flag);
      var o' := Written(env, map[], msg, tm, Put(o, text), x);
      PendingWritten(env, msg, tm, o, text);
      WrittenConcat(env, msg, tm, o, Pending(text), [x]);
      TemplateWritten(env, msg, tm, o', rest);
      assert [x][1..] == [];
      WrittenConcat(env, msg, tm, o, Pending(text) + [x], rest.Segments());
      assert forall y :: y in t.Segments() <==> y in Pending(text) || y == x || y in rest.Segments();
  }

  /** A formatter for the spelling of a template fills it in. */
  lemma TemplateShows(env: Env, now: int, msg: Msg, tm: Tm, o: Output, t: Template)
    requires t.Valid() && AllTruthful(env, map[], msg, tm, t.Segments())
    ensures ShowFlags(env, Compile(map[], now, t.Spelling()), msg, tm, o) == Some(t.Fill(env, msg, tm, o))
  {
    hide ShowFlags, Compile, AllPlain, AllTruthful, WrittenAll, Template.Fill, Template.Spelling, Template.Segments;
    TemplateSegments(t);
    TemplateWritten(env, msg, tm, o, t);
    PatternWritten(env, map[], now, t.Spelling(), msg, tm, o);
  }

  // -------------------------------------------------------- patterns that agree

  /** The two patterns print the message alike, at any time and behind any output. */
  ghost predicate Alike(env: Env, p: string, q: string, msg: Msg) {
    forall now, tm, o ::
      ShowFlags(env, Compile(map[], now, p), msg, tm, o) == ShowFlags(env, Compile(map[], now, q), msg, tm, o)
  }

  /** Two templates without padding agree if they fill in alike. */
  ghost predicate FillAlike(env: Env, s: Template, t: Template, msg: Msg)
    requires s.Valid() && t.Valid()
  {
    forall tm, o :: s.Fill(env, msg, tm, o) == t.Fill(env, msg, tm, o)
  }

  lemma TemplatesAlike(env: Env, s: Template, t: Template, msg: Msg)
    requires s.Valid() && t.Valid() && s.Bare() && t.Bare()
    ensures Alike(env, s.Spelling(), t.Spelling(), msg) <==> FillAlike(env, s, t, msg)
  {
    hide ShowFlags, Compile, AllTruthful, Template.Fill, Template.Spelling, Template.Segments;
    forall now, tm, o
      ensures ShowFlags(env, Compile(map[], now, s.Spelling()), msg, tm, o) == Some(s.Fill(env, msg, tm, o))
      ensures ShowFlags(env, Compile(map[], now, t.Spelling()), msg, tm, o) == Some(t.Fill(env, msg, tm, o))
    {
      TemplateWritten(env, msg, tm, o, s);
      TemplateWritten(env, msg, tm, o, t);
      TemplateShows(env, now, msg, tm, o, s);
      TemplateShows(env, now, msg, tm, o, t);
    }
    if Alike(env, s.Spelling(), t.Spelling(), msg) {
      forall tm, o ensures s.Fill(env, msg, tm, o) == t.Fill(env, msg, tm, o) {
        assert ShowFlags(env, Compile(map[], 0, s.Spelling()), msg, tm, o) ==
               ShowFlags(env, Compile(map[], 0, t.Spelling()), msg, tm, o);
      }
    }
    if FillAlike(env, s, t, msg) {
      forall now, tm, o
        ensures ShowFlags(env, Compile(map[], now, s.Spelling()), msg, tm, o) ==
                ShowFlags(env, Compile(map[], now, t.Spelling()), msg, tm, o)
      {
        assert s.Fill(env, msg, tm, o) == t.Fill(env, msg, tm, o);
      }
    }
  }

  lemma PutTwice(o: Output, s: string, t: string)
    ensures Put(Put(o, s), t) == Put(o, s + t)
  {
    assert o.text + s + t == o.text + (s + t);
  }

  /** What is written for a template of fields without padding. */
  function Texts(env: Env, msg: Msg, tm: Tm, t: Template): string {
    if t.Tail? then t.text else t.text + (FieldText(t.flag, env, msg, tm) + Texts(env, msg, tm, t.rest))
  }

  predicate FieldsOnly(t: Template) {
    t.Item? ==> (t.flag in TIME_FLAGS || t.flag in PLAIN_FLAGS) && FieldsOnly(t.rest)
  }

  /** Nothing but literal texts and unpadded fields. */
  predicate Simple(t: Template) {
    t.Valid() && t.Bare() && FieldsOnly(t)
  }

  /** A field without padding appends the text in front of it and its own. */
  lemma FieldFilled(env: Env, msg: Msg, tm: Tm, o: Output, text: string, spec: Spec, c: char, rest: Template)
    requires Item(text, spec, c, rest).Valid() && spec.digits == "" && (c in TIME_FLAGS || c in PLAIN_FLAGS)
    ensures Item(text, spec, c, rest).Fill(env, msg, tm, o) ==
            rest.Fill(env, msg, tm, Put(o, text + FieldText(c, env, msg, tm)))
  {
    hide FieldText;
    PutTwice(o, text, FieldText(c, env, msg, tm));
  }

  lemma TextParts(o: Output, text: string, field: string, rest: string)
    ensures Put(Put(o, text + field), rest) == Put(o, text + (field + rest))
  {
    PutTwice(o, text + field, rest);
    assert text + field + rest == text + (field + rest);
  }

  lemma {:induction false} TextsFilled(env: Env, msg: Msg, tm: Tm, o: Output, t: Template)
    requires Simple(t)
    ensures t.Fill(env, msg, tm, o) == Put(o, Texts(env, msg, tm, t))
    decreases t
  {
    if t.Item? {
      FieldFilled(env, msg, tm, o, t.text, t.spec, t.flag, t.rest);
      hide FieldText, Template.Fill, Put;
      var text := FieldText(t.flag, env, msg, tm);
      TextsFilled(env, msg, tm, Put(o, t.text + text), t.rest);
      TextParts(o, t.text, text, Texts(env, msg, tm, t.rest));
    }
  }

  /** The two templates make the same texts of a message, at any time. */
  ghost predicate SameTexts(env: Env, s: Template, t: Template, msg: Msg) {
    forall tm :: Texts(env, msg, tm, s) == Texts(env, msg, tm, t)
  }

  lemma FillsAreTexts(env: Env, s: Template, t: Template, msg: Msg)
    requires Simple(s) && Simple(t)
    ensures FillAlike(env, s, t, msg) <==> SameTexts(env, s, t, msg)
  {
    hide Template.Fill, Texts;
    forall tm, o
      ensures s.Fill(env, msg, tm, o) == Put(o, Texts(env, msg, tm, s))
      ensures t.Fill(env, msg, tm, o) == Put(o, Texts(env, msg, tm, t))
    {
      TextsFilled(env, msg, tm, o, s);
      TextsFilled(env, msg, tm, o, t);
    }
    if FillAlike(env, s, t, msg) {
      forall tm ensures Texts(env, msg, tm, s) == Texts(env, msg, tm, t) {
        var o := Output("", 0, 0);
        assert s.Fill(env, msg, tm, o) == t.Fill(env, msg, tm, o);
        assert "" + Texts(env, msg, tm, s) == Texts(env, msg, tm, s);
        assert "" + Texts(env, msg, tm, t) == Texts(env, msg, tm, t);
      }
    }
    if SameTexts(env, s, t, msg) {
      forall tm, o ensures s.Fill(env, msg, tm, o) == t.Fill(env, msg, tm, o) {
        assert Texts(env, msg, tm, s) == Texts(env, msg, tm, t);
      }
    }
  }

  /** Templates of unpadded fields agree on a message exactly if they make the same texts of it. */
  lemma TextsAlike(env: Env, s: Template, t: Template, msg: Msg)
    requires Simple(s) && Simple(t)
    ensures Alike(env, s.Spelling(), t.Spelling(), msg) <==> SameTexts(env, s, t, msg)
  {
    hide Alike, FillAlike, SameTexts, Template.Spelling;
    TemplatesAlike(env, s, t, msg);
    FillsAreTexts(env, s, t, msg);
  }
}
