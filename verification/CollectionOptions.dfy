/**
 Options of a collection: a list of options is applied one by one to nested,
 write-once settings, and taken back as a whole when one of them is refused.
 */
module CollectionSettings {
  import opened Wrappers

  /** A JSON document, or a text as it is handed over; `parse` may refuse a text. */
  type Doc = string
  type Parser = string -> Option<Doc>

  /** The value behind an option; the constructor is its C++ type. */
  datatype OptionValue =
    | BoolValue(b: bool)
    | LevelValue(code: int)
    | StringValue(s: string)
    | CharsValue(chars: string)
    | DocValue(doc: Doc)
    | ValidationValue(validation: ValidationData)
    | OtherValue

  /** An option with its value; the two kinds have codes of their own. */
  datatype Item =
    | OptionItem(code: int, value: OptionValue)
    | ValidationItem(code: int, value: OptionValue)

  const REUSE := 1
  const VALIDATION := 2
  const OPTIONS_LAST := 3
  const SCHEMA := 1
  const LEVEL := 2
  const VALIDATION_LAST := 3
  const OFF := 1
  const STRICT := 2

  datatype ValidationData = ValidationData(level: string, schema: Doc, used: set<int>) {
    /** What was never set has its initial value. */
    predicate Valid() {
      used <= {SCHEMA, LEVEL} && (LEVEL !in used ==> level == "") && (SCHEMA !in used ==> schema == "")
    }
  }

  datatype Data = Data(validation: ValidationData, used: set<int>, reuse: bool) {
    predicate Valid() {
      validation.Valid() && used <= {REUSE, VALIDATION} && (REUSE !in used ==> !reuse)
    }
  }

  const NEW_VALIDATION := ValidationData("", "", {})
  const NEW_DATA := Data(NEW_VALIDATION, {}, false)

  // ----------------------------------------------------- the steps, as functions

  function LevelText(code: int, before: string): string {
    if code == OFF then "OFF" else if code == STRICT then "STRICT" else before
  }

  function SetSchema(d: ValidationData, doc: Doc): Option<ValidationData> {
    if SCHEMA in d.used then None else Some(d.(used := d.used + {SCHEMA}, schema := doc))
  }

  /** An option code that is neither known nor the last one is passed over. */
  function StepValidation(parse: Parser, d: ValidationData, code: int, v: OptionValue): Option<ValidationData> {
    if code == SCHEMA then
      match v
      case DocValue(doc) => SetSchema(d, doc)
      case CharsValue(s) => if parse(s).None? then None else SetSchema(d, parse(s).value)
      case StringValue(s) => if parse(s).None? then None else SetSchema(d, parse(s).value)
      case _ => None
    else if code == LEVEL then
      match v
      case LevelValue(n) =>
        if LEVEL in d.used then None else Some(d.(used := d.used + {LEVEL}, level := LevelText(n, d.level)))
      case StringValue(s) => if LEVEL in d.used then None else Some(d.(used := d.used + {LEVEL}, level := s))
      case _ => None
    else if code == VALIDATION_LAST then None
    else Some(d)
  }

  /** The marks on the nested validation do not survive: it is overwritten as a whole. */
  function Step(parse: Parser, d: Data, x: Item): Option<Data> {
    match x
    case ValidationItem(code, v) =>
      (match StepValidation(parse, d.validation, code, v)
       case None => None
       case Some(w) => Some(d.(validation := w)))
    case OptionItem(code, v) =>
      if code == REUSE then
        if !v.BoolValue? || REUSE in d.used then None else Some(d.(used := d.used + {REUSE}, reuse := v.b))
      else if code == VALIDATION then
        if !v.ValidationValue? || VALIDATION in d.used || LEVEL in d.validation.used || SCHEMA in d.validation.used
        then None
        else Some(d.(used := d.used + {VALIDATION}, validation := v.validation))
      else if code == OPTIONS_LAST then None
      else Some(d)
  }

  function Steps(parse: Parser, d: Data, xs: seq<Item>): Option<Data>
    decreases |xs|
  {
    if xs == [] then Some(d)
    else
      match Step(parse, d, xs[0])
      case None => None
      case Some(d') => Steps(parse, d', xs[1..])
  }

  /** A code of the nested validation with its value. */
  datatype Setting = Setting(code: int, value: OptionValue)

  function ValidationSteps(parse: Parser, d: ValidationData, xs: seq<Setting>): Option<ValidationData>
    decreases |xs|
  {
    if xs == [] then Some(d)
    else
      match StepValidation(parse, d, xs[0].code, xs[0].value)
      case None => None
      case Some(d') => ValidationSteps(parse, d', xs[1..])
  }

  function Nested(xs: seq<Setting>): (items: seq<Item>)
    ensures |items| == |xs|
  {
    if xs == [] then [] else [ValidationItem(xs[0].code, xs[0].value)] + Nested(xs[1..])
  }

  /** Setting a validation by itself is setting it inside collection options. */
  lemma {:induction false} NestedSteps(parse: Parser, d: Data, xs: seq<Setting>)
    ensures Steps(parse, d, Nested(xs)) ==
            match ValidationSteps(parse, d.validation, xs)
            case None => None
            case Some(w) => Some(d.(validation := w))
    decreases |xs|
  {
    hide StepValidation;
    if xs != [] {
      var x := ValidationItem(xs[0].code, xs[0].value);
      assert Nested(xs)[0] == x && Nested(xs)[1..] == Nested(xs[1..]);
      if Step(parse, d, x).Some? { NestedSteps(parse, Step(parse, d, x).value, xs[1..]); }
    }
  }

  // ------------------------------------------------------------------ the objects

  class CollectionValidation {
    var data: ValidationData

    constructor ()
      ensures data == NEW_VALIDATION
    {
      data := NEW_VALIDATION;
    }

    method DoSetSchema(doc: Doc) returns (ok: bool)
      modifies this
      ensures ok == SetSchema(old(data), doc).Some?
      ensures data == if ok then SetSchema(old(data), doc).value else old(data)
    {
      if SCHEMA in data.used { return false; }
      data := data.(used := data.used + {SCHEMA});
      data := data.(schema := doc);
      ok := true;
    }

    method SetOne(parse: Parser, code: int, v: OptionValue) returns (ok: bool)
      modifies this
      ensures ok == StepValidation(parse, old(data), code, v).Some?
      ensures data == if ok then StepValidation(parse, old(data), code, v).value else old(data)
    {
      ok := true;
      if code == SCHEMA {
        match v {
          case DocValue(doc) => ok := DoSetSchema(doc);
          case CharsValue(s) =>
            if parse(s).None? { return false; }
            ok := DoSetSchema(parse(s).value);
          case StringValue(s) =>
            if parse(s).None? { return false; }
            ok := DoSetSchema(parse(s).value);
          case _ => ok := false;
        }
      } else if code == LEVEL {
        if !v.LevelValue? && !v.StringValue? { return false; }
        if LEVEL in data.used { return false; }
        data := data.(used := data.used + {LEVEL});
        if v.StringValue? {
          data := data.(level := v.s);
        } else if v.code == OFF {
          data := data.(level := "OFF");
        } else if v.code == STRICT {
          data := data.(level := "STRICT");
        }
      } else if code == VALIDATION_LAST {
        ok := false;
      }
    }

    method SetRest(parse: Parser, xs: seq<Setting>) returns (ok: bool)
      modifies this
      ensures ok == ValidationSteps(parse, old(data), xs).Some?
      ensures ok ==> Some(data) == ValidationSteps(parse, old(data), xs)
      decreases |xs|
    {
      if xs == [] { return true; }
      ok := SetOne(parse, xs[0].code, xs[0].value);
      if ok { ok := SetRest(parse, xs[1..]); }
    }

    /** All or nothing, like the options around it. */
    method Set(parse: Parser, xs: seq<Setting>) returns (ok: bool)
      modifies this
      ensures ok == ValidationSteps(parse, old(data), xs).Some?
      ensures data == if ok then ValidationSteps(parse, old(data), xs).value else old(data)
    {
      var tmpData := data;
      ok := SetRest(parse, xs);
      if !ok { data := tmpData; }
    }
  }

  class CollectionOptions {
    const validation: CollectionValidation
    var used: set<int>
    var reuse: bool

    function Value(): Data
      reads this, validation
    {
      Data(validation.data, used, reuse)
    }

    constructor ()
      ensures fresh(validation) && Value() == NEW_DATA
    {
      validation := new CollectionValidation();
      used, reuse := {}, false;
    }

    method SetOne(parse: Parser, x: Item) returns (ok: bool)
      modifies this, validation
      ensures ok == Step(parse, old(Value()), x).Some?
      ensures ok ==> Some(Value()) == Step(parse, old(Value()), x)
    {
      ok := true;
      match x {
        case ValidationItem(code, v) => ok := validation.SetOne(parse, code, v);
        case OptionItem(code, v) =>
          if code == REUSE {
            if !v.BoolValue? || REUSE in used { return false; }
            used := used + {REUSE};
            reuse := v.b;
          } else if code == VALIDATION {
            if !v.ValidationValue? { return false; }
            if VALIDATION in used || LEVEL in validation.data.used || SCHEMA in validation.data.used { return false; }
            used := used + {VALIDATION};
            validation.data := validation.data.(used := validation.data.used + {LEVEL});
            validation.data := validation.data.(used := validation.data.used + {SCHEMA});
            validation.data := v.validation;
          } else if code == OPTIONS_LAST {
            ok := false;
          }
      }
    }

    method SetRest(parse: Parser, xs: seq<Item>) returns (ok: bool)
      modifies this, validation
      ensures ok == Steps(parse, old(Value()), xs).Some?
      ensures ok ==> Some(Value()) == Steps(parse, old(Value()), xs)
      decreases |xs|
    {
      if xs == [] { return true; }
      ok := SetOne(parse, xs[0]);
      if ok { ok := SetRest(parse, xs[1..]); }
    }

    /** All or nothing: an exception, when `ok` is false, leaves the settings as they were. */
    method Set(parse: Parser, xs: seq<Item>) returns (ok: bool)
      modifies this, validation
      ensures ok == Steps(parse, old(Value()), xs).Some?
      ensures Value() == if ok then Steps(parse, old(Value()), xs).value else old(Value())
    {
      var tmpValidation, tmpUsed, tmpReuse := validation.data, used, reuse;
      ok := SetRest(parse, xs);
      if !ok {
        validation.data, used, reuse := tmpValidation, tmpUsed, tmpReuse;
      }
    }
  }

  // ---------------------------------------------------- when a list is accepted

  /** The settings that are written once. */
  datatype Slot = ReuseSlot | ValidationSlot | SchemaSlot | LevelSlot

  function UsedSlots(d: Data): set<Slot> {
    (if REUSE in d.used then {ReuseSlot} else {}) + (if VALIDATION in d.used then {ValidationSlot} else {}) +
    ValidationSlots(d.validation)
  }

  function ValidationSlots(v: ValidationData): set<Slot> {
    (if SCHEMA in v.used then {SchemaSlot} else {}) + (if LEVEL in v.used then {LevelSlot} else {})
  }

  /** The value has a type that the option takes, and can be read. */
  predicate Accepts(parse: Parser, x: Item) {
    match x
    case ValidationItem(code, v) =>
      if code == SCHEMA then
        v.DocValue? || (v.CharsValue? && parse(v.chars).Some?) || (v.StringValue? && parse(v.s).Some?)
      else if code == LEVEL then v.LevelValue? || v.StringValue?
      else code != VALIDATION_LAST
    case OptionItem(code, v) =>
      if code == REUSE then v.BoolValue? else if code == VALIDATION then v.ValidationValue? else code != OPTIONS_LAST
  }

  /** The settings an option must find unused. */
  function Wants(x: Item): set<Slot> {
    match x
    case ValidationItem(code, _) => if code == SCHEMA then {SchemaSlot} else if code == LEVEL then {LevelSlot} else {}
    case OptionItem(code, _) =>
      if code == REUSE then {ReuseSlot} else if code == VALIDATION then {ValidationSlot, SchemaSlot, LevelSlot} else {}
  }

  /** The settings an option leaves used; a whole validation uses only what is set in it. */
  function Takes(x: Item): set<Slot> {
    if x.OptionItem? && x.code == VALIDATION && x.value.ValidationValue? then
      {ValidationSlot} + ValidationSlots(x.value.validation)
    else Wants(x)
  }

  lemma StepExactly(parse: Parser, d: Data, x: Item)
    ensures Step(parse, d, x).Some? <==> Accepts(parse, x) && Wants(x) !! UsedSlots(d)
    ensures Step(parse, d, x).Some? ==> UsedSlots(Step(parse, d, x).value) == UsedSlots(d) + Takes(x)
  {
    var used := UsedSlots(d);
    assert SchemaSlot in used <==> SCHEMA in d.validation.used;
    assert LevelSlot in used <==> LEVEL in d.validation.used;
  }

  /** Every option is acceptable, and finds unused what it wants. */
  predicate NoConflict(parse: Parser, used: set<Slot>, xs: seq<Item>) {
    && (forall i | 0 <= i < |xs| :: Accepts(parse, xs[i]) && Wants(xs[i]) !! used)
    && forall i, j | 0 <= i < j < |xs| :: Wants(xs[j]) !! Takes(xs[i])
  }

  lemma NoConflictStep(parse: Parser, used: set<Slot>, x: Item, xs: seq<Item>)
    ensures NoConflict(parse, used, [x] + xs) <==>
            Accepts(parse, x) && Wants(x) !! used && NoConflict(parse, used + Takes(x), xs)
  {
    var all := [x] + xs;
    if NoConflict(parse, used, all) {
      assert all[0] == x;
      forall i | 0 <= i < |xs| ensures Accepts(parse, xs[i]) && Wants(xs[i]) !! used + Takes(x) {
        assert all[i + 1] == xs[i];
      }
      forall i, j | 0 <= i < j < |xs| ensures Wants(xs[j]) !! Takes(xs[i]) {
        assert all[i + 1] == xs[i] && all[j + 1] == xs[j];
      }
    }
    if Accepts(parse, x) && Wants(x) !! used && NoConflict(parse, used + Takes(x), xs) {
      forall i, j | 0 <= i < j < |all| ensures Wants(all[j]) !! Takes(all[i]) {
        assert all[j] == xs[j - 1];
      }
    }
  }

  /** Exactly when a list of options is accepted, and which settings are used then. */
  lemma {:induction false} AcceptedExactly(parse: Parser, d: Data, xs: seq<Item>)
    ensures Steps(parse, d, xs).Some? <==> NoConflict(parse, UsedSlots(d), xs)
    decreases |xs|
  {
    hide Step, UsedSlots, Takes, Wants, Accepts, NoConflict;
    if xs == [] {
      EmptyIsAccepted(parse, UsedSlots(d));
    } else {
      var x, rest := xs[0], xs[1..];
      assert xs == [x] + rest;
      NoConflictStep(parse, UsedSlots(d), x, rest);
      StepExactly(parse, d, x);
      if Step(parse, d, x).Some? { AcceptedExactly(parse, Step(parse, d, x).value, rest); }
    }
  }

  lemma EmptyIsAccepted(parse: Parser, used: set<Slot>)
    ensures NoConflict(parse, used, [])
  {}

  // ------------------------------------------------------------------- the values

  /** What a setting holds. */
  datatype Held = HeldFlag(b: bool) | HeldText(s: string) | HeldNothing

  function ValidationHolds(v: ValidationData, slot: Slot): Held {
    if slot == SchemaSlot then HeldText(v.schema) else if slot == LevelSlot then HeldText(v.level) else HeldNothing
  }

  function Holds(d: Data, slot: Slot): Held {
    if slot == ReuseSlot then HeldFlag(d.reuse) else ValidationHolds(d.validation, slot)
  }

  /** What an option puts into a setting it takes. */
  function Gives(parse: Parser, x: Item, slot: Slot): Held
    requires Accepts(parse, x) && slot in Takes(x)
  {
    match x
    case ValidationItem(code, v) =>
      if code == SCHEMA then
        HeldText(if v.DocValue? then v.doc else if v.CharsValue? then parse(v.chars).value else parse(v.s).value)
      else HeldText(if v.LevelValue? then LevelText(v.code, "") else v.s)
    case OptionItem(code, v) =>
      if code == REUSE then HeldFlag(v.b) else ValidationHolds(v.validation, slot)
  }

  predicate ValidItem(x: Item) {
    x.value.ValidationValue? ==> x.value.validation.Valid()
  }

  lemma StepValue(parse: Parser, d: Data, x: Item, slot: Slot)
    requires d.Valid() && ValidItem(x) && Step(parse, d, x).Some?
    ensures Accepts(parse, x) && Step(parse, d, x).value.Valid()
    ensures Holds(Step(parse, d, x).value, slot) == if slot in Takes(x) then Gives(parse, x, slot) else Holds(d, slot)
  {
    StepExactly(parse, d, x);
  }

  /**
   After an accepted list every setting holds what the one option that takes it
   gives, and what it held before if there is none.
   */
  lemma {:induction false} AcceptedValues(parse: Parser, d: Data, xs: seq<Item>, slot: Slot)
    requires d.Valid() && (forall x | x in xs :: ValidItem(x)) && Steps(parse, d, xs).Some?
    ensures Steps(parse, d, xs).value.Valid()
    ensures forall x | x in xs :: Accepts(parse, x)
    ensures (forall x | x in xs :: slot !in Takes(x)) ==> Holds(Steps(parse, d, xs).value, slot) == Holds(d, slot)
    ensures forall x | x in xs && slot in Takes(x) :: Holds(Steps(parse, d, xs).value, slot) == Gives(parse, x, slot)
    decreases |xs|
  {
    hide Step, Holds, Takes, Gives, Accepts, UsedSlots, Wants;
    if xs != [] {
      var d' := Step(parse, d, xs[0]).value;
      StepValue(parse, d, xs[0], slot);
      AcceptedValues(parse, d', xs[1..], slot);
      if slot in Takes(xs[0]) {
        StepExactly(parse, d, xs[0]);
        WriteOnce(parse, d', xs[1..], slot);
      }
      forall x | x in xs && slot in Takes(x)
        ensures Accepts(parse, x) && Holds(Steps(parse, d, xs).value, slot) == Gives(parse, x, slot)
      {
        assert x == xs[0] || x in xs[1..];
        if slot in Takes(xs[0]) { assert x == xs[0] || slot !in Takes(x); }
      }
    }
  }

  /** A used setting keeps its value through every accepted list: nothing in the list takes it. */
  lemma {:induction false} WriteOnce(parse: Parser, d: Data, xs: seq<Item>, slot: Slot)
    requires d.Valid() && (forall x | x in xs :: ValidItem(x)) && Steps(parse, d, xs).Some?
    requires slot in UsedSlots(d)
    ensures forall x | x in xs :: slot !in Takes(x)
    ensures Holds(Steps(parse, d, xs).value, slot) == Holds(d, slot) && slot in UsedSlots(Steps(parse, d, xs).value)
    decreases |xs|
  {
    hide Step, Holds, Takes, Accepts, UsedSlots, Wants;
    if xs != [] {
      StepValue(parse, d, xs[0], slot);
      StepExactly(parse, d, xs[0]);
      TakesAreWanted(xs[0]);
      WriteOnce(parse, Step(parse, d, xs[0]).value, xs[1..], slot);
    }
  }

  lemma TakesAreWanted(x: Item)
    ensures Takes(x) <= Wants(x)
  {}

  /**
   Setting the level by its enumerator is setting it by its name, and a code that
   is neither leaves the text as it was.
   */
  lemma LevelByName(parse: Parser, d: Data, code: int)
    ensures Step(parse, d, ValidationItem(LEVEL, LevelValue(OFF))) ==
            Step(parse, d, ValidationItem(LEVEL, StringValue("OFF")))
    ensures Step(parse, d, ValidationItem(LEVEL, LevelValue(STRICT))) ==
            Step(parse, d, ValidationItem(LEVEL, StringValue("STRICT")))
    ensures code !in {OFF, STRICT} ==>
              Step(parse, d, ValidationItem(LEVEL, LevelValue(code))) ==
              Step(parse, d, ValidationItem(LEVEL, StringValue(d.validation.level)))
  {}

  /** A schema that is handed over as a text is the document the text is parsed to. */
  lemma SchemaByText(parse: Parser, d: Data, s: string)
    requires parse(s).Some?
    ensures Step(parse, d, ValidationItem(SCHEMA, StringValue(s))) ==
            Step(parse, d, ValidationItem(SCHEMA, DocValue(parse(s).value)))
    ensures Step(parse, d, ValidationItem(SCHEMA, CharsValue(s))) ==
            Step(parse, d, ValidationItem(SCHEMA, StringValue(s)))
  {}

  /** Two options that do the same to all settings. */
  ghost predicate SameStep(parse: Parser, x: Item, y: Item) {
    forall d :: Step(parse, d, x) == Step(parse, d, y)
  }

  lemma {:induction false} SameSteps(parse: Parser, d: Data, xs: seq<Item>, x: Item, y: Item, ys: seq<Item>)
    requires SameStep(parse, x, y)
    ensures Steps(parse, d, xs + [x] + ys) == Steps(parse, d, xs + [y] + ys)
    decreases |xs|
  {
    hide Step;
    var a, b := xs + [x] + ys, xs + [y] + ys;
    if xs == [] {
      assert a[1..] == ys && b[1..] == ys;
      assert Step(parse, d, x) == Step(parse, d, y);
    } else {
      assert a[1..] == xs[1..] + [x] + ys && b[1..] == xs[1..] + [y] + ys;
      var d' := Step(parse, d, xs[0]);
      if d'.Some? { SameSteps(parse, d'.value, xs[1..], x, y, ys); }
    }
  }

  /** Any list with a level in it is accepted, with the same settings, with the enumerator as with the name. */
  lemma LevelsByName(parse: Parser, d: Data, xs: seq<Item>, ys: seq<Item>)
    ensures Steps(parse, d, xs + [ValidationItem(LEVEL, LevelValue(OFF))] + ys) ==
            Steps(parse, d, xs + [ValidationItem(LEVEL, StringValue("OFF"))] + ys)
    ensures Steps(parse, d, xs + [ValidationItem(LEVEL, LevelValue(STRICT))] + ys) ==
            Steps(parse, d, xs + [ValidationItem(LEVEL, StringValue("STRICT"))] + ys)
  {
    hide Step, Steps;
    forall e { LevelByName(parse, e, OFF); }
    SameSteps(parse, d, xs, ValidationItem(LEVEL, LevelValue(OFF)), ValidationItem(LEVEL, StringValue("OFF")), ys);
    SameSteps(parse, d, xs, ValidationItem(LEVEL, LevelValue(STRICT)),
              ValidationItem(LEVEL, StringValue("STRICT")), ys);
  }

  /**
   A whole validation with only its level set leaves the schema open, although
   the code marks both in passing; one with both set does not.
   */
  lemma PartialValidationStaysOpen(parse: Parser, d: Data, v: ValidationData, doc: Doc)
    requires v.Valid()
    ensures Steps(parse, d, [OptionItem(VALIDATION, ValidationValue(v)),
                             ValidationItem(SCHEMA, DocValue(doc))]).Some? <==>
            UsedSlots(d) <= {ReuseSlot} && SCHEMA !in v.used
  {
    var x, y := OptionItem(VALIDATION, ValidationValue(v)), ValidationItem(SCHEMA, DocValue(doc));
    AcceptedExactly(parse, d, [x, y]);
    assert [x, y][0] == x && [x, y][1] == y;
    if Wants(x) !! UsedSlots(d) {
      forall s | s in UsedSlots(d) ensures s == ReuseSlot {
        assert s == ReuseSlot || s in Wants(x);
      }
    }
  }
}
