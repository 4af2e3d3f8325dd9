/**
 The pattern language: the scanner of padding specs, and a declarative grammar
 of segments, which spell a pattern in one way only.
 */
module PatternGrammar {
  import opened Wrappers
  import opened Padding

  const SIZE_MAX_1: nat := 0x1_0000_0000_0000_0000

  predicate IsDigit(c: char) {
    '0' <= c <= '9'
  }

  function DigitValue(c: char): (d: nat)
    requires IsDigit(c)
    ensures d < 10
  {
    c as int - '0' as int
  }

  predicate AllDigits(s: string) {
    forall k | 0 <= k < |s| :: IsDigit(s[k])
  }

  function Value(digits: string): nat
    requires AllDigits(digits)
  {
    if digits == "" then 0
    else Value(digits[..|digits| - 1]) * 10 + DigitValue(digits[|digits| - 1])
  }

  function Capped(n: nat): nat {
    if n < MAX_WIDTH then n else MAX_WIDTH
  }

  /** A padding spec as it is written: a side, a width, and the mark that makes it truncate. */
  datatype Spec = Spec(side: Option<char>, digits: string, bang: bool) {
    predicate Valid() {
      && (side.Some? ==> side.value in {'-', '='})
      && AllDigits(digits)
      && (bang ==> digits != "")
    }

    function SideText(): string {
      if side.Some? then [side.value] else ""
    }

    function WidthText(): string {
      digits + (if bang then "!" else "")
    }

    function Text(): string {
      SideText() + WidthText()
    }

    /** The spec ends in front of `c`, which can not be a part of it. */
    predicate Stops(c: char) {
      && !(side.None? && digits == "" && c in {'-', '='})
      && !(!bang && IsDigit(c))
      && !(!bang && digits != "" && c == '!')
    }

    /** The padding it asks for; the width is accumulated in 64 bits and then capped. */
    function Padding(): (p: PaddingInfo)
      requires Valid()
      ensures p.Valid()
    {
      if digits == "" then NO_PADDING
      else
        PaddingInfo(Capped(Value(digits) % SIZE_MAX_1),
                    if side == Some('-') then Right else if side == Some('=') then Center else Left, bang, true)
    }
  }

  function DigitRun(s: string): (n: nat)
    ensures n <= |s| && AllDigits(s[..n])
    ensures n < |s| ==> !IsDigit(s[n])
  {
    if s == "" || !IsDigit(s[0]) then 0
    else
      var n := DigitRun(s[1..]);
      assert s[..n + 1] == [s[0]] + s[1..][..n];
      n + 1
  }

  /** The longest width spec in front of a string. */
  function ReadWidth(side: Option<char>, s: string): (spec: Spec)
    requires side.Some? ==> side.value in {'-', '='}
    ensures spec.Valid() && spec.side == side
  {
    var n := DigitRun(s);
    Spec(side, s[..n], 0 < n < |s| && s[n] == '!')
  }

  /** The longest padding spec in front of a string. */
  function ReadSpec(s: string): (spec: Spec)
    ensures spec.Valid()
  {
    if s != "" && s[0] in {'-', '='} then ReadWidth(Some(s[0]), s[1..]) else ReadWidth(None, s)
  }

  lemma ReadWidthFits(side: Option<char>, s: string)
    requires side.Some? ==> side.value in {'-', '='}
    requires side.None? && s != "" ==> s[0] !in {'-', '='}
    ensures var spec := ReadWidth(side, s); var n := |spec.WidthText()|;
            n <= |s| && s[..n] == spec.WidthText() && (n < |s| ==> spec.Stops(s[n]))
  {}

  lemma ReadSpecFits(s: string)
    ensures var spec := ReadSpec(s); var n := |spec.Text()|;
            n <= |s| && s[..n] == spec.Text() && (n < |s| ==> spec.Stops(s[n]))
  {
    hide ReadWidth, DigitRun;
    if s != "" && s[0] in {'-', '='} {
      ReadWidthFits(Some(s[0]), s[1..]);
      assert s == [s[0]] + s[1..];
    } else {
      ReadWidthFits(None, s);
      assert ReadSpec(s).Text() == ReadSpec(s).WidthText();
    }
  }

  lemma {:induction false} DigitRunOf(digits: string, rest: string)
    requires AllDigits(digits)
    requires rest != "" ==> !IsDigit(rest[0])
    ensures DigitRun(digits + rest) == |digits|
  {
    if digits == "" {
      assert digits + rest == rest;
    } else {
      assert (digits + rest)[1..] == digits[1..] + rest;
      DigitRunOf(digits[1..], rest);
    }
  }

  lemma ReadWidthBack(spec: Spec, rest: string)
    requires spec.Valid() && (rest != "" ==> spec.Stops(rest[0]))
    ensures ReadWidth(spec.side, spec.WidthText() + rest) == spec
  {
    var tail := (if spec.bang then "!" else "") + rest;
    var s := spec.WidthText() + rest;
    assert s == spec.digits + tail;
    DigitRunOf(spec.digits, tail);
    assert s[..|spec.digits|] == spec.digits;
  }

  /** A spec is read back from its text, whatever stands behind it, if the text behind does not extend it. */
  lemma ReadSpecBack(spec: Spec, rest: string)
    requires spec.Valid() && (rest != "" ==> spec.Stops(rest[0]))
    ensures ReadSpec(spec.Text() + rest) == spec
  {
    hide ReadWidth, DigitRun;
    ReadWidthBack(spec, rest);
    var s, t := spec.Text() + rest, spec.WidthText() + rest;
    if spec.side.Some? {
      assert s[1..] == t;
    } else {
      assert s == t;
      if s != "" { assert s[0] == if spec.digits != "" then spec.digits[0] else rest[0]; }
    }
  }

  // --------------------------------------------------------------------- widths

  /** The width is the number as written, capped at 64, exactly if wrapping did not bring it below the cap. */
  lemma WidthExactly(spec: Spec)
    requires spec.Valid() && spec.digits != ""
    ensures var n := Value(spec.digits);
            && spec.Padding().width <= MAX_WIDTH
            && (spec.Padding().width == Capped(n) <==> n < MAX_WIDTH || n % SIZE_MAX_1 >= MAX_WIDTH)
            && (n < SIZE_MAX_1 ==> spec.Padding().width == Capped(n))
  {
    var n := Value(spec.digits);
    if n < SIZE_MAX_1 { assert n % SIZE_MAX_1 == n; }
  }

  /** What the side of a spec does to a field that fits: minus puts the spaces behind, equals around, none in front. */
  lemma SideOfSpec(spec: Spec, dest: string, text: string)
    requires spec.Valid() && spec.digits != "" && |text| <= spec.Padding().width
    ensures var missing := spec.Padding().width - |text|;
            Padded(dest, |text|, spec.Padding(), text) ==
            Some(if spec.side == Some('-') then dest + text + Spaces(missing)
                 else if spec.side == Some('=') then dest + Spaces(missing / 2) + text + Spaces(missing - missing / 2)
                 else dest + Spaces(missing) + text)
  {
    var p := spec.Padding();
    assert dest + Spaces(0) == dest;
    assert forall s: string :: s + Spaces(0) == s;
  }

  /** A number is read back from its decimal text. */
  lemma {:induction false} ValueOfDecimal(n: nat)
    ensures AllDigits(Decimal(n)) && Value(Decimal(n)) == n
  {
    if n >= 10 {
      ValueOfDecimal(n / 10);
      assert Decimal(n)[..|Decimal(n)| - 1] == Decimal(n / 10);
    }
  }

  /** A width of two to the 64th and one asks for a single column. */
  lemma HugeWidthWraps()
    ensures var spec := Spec(None, Decimal(SIZE_MAX_1 + 1), false);
            spec.Valid() && spec.Padding().width == 1
  {
    hide Decimal, Value;
    ValueOfDecimal(SIZE_MAX_1 + 1);
  }

  lemma MultipleIsFar(k: int, m: nat)
    ensures (k > 0 ==> k * m >= m) && (k < 0 ==> k * m <= 0 - m)
  {}

  lemma RemainderUnique(n: nat, q: nat, r: nat, m: nat)
    requires n == q * m + r && r < m
    ensures n % m == r
  {
    var k := q - n / m;
    assert n == n / m * m + n % m;
    assert k * m == n % m - r;
    MultipleIsFar(k, m);
  }

  lemma WrapParts(v: nat, d: nat, m: nat, q: nat, a: nat, q': nat, r: nat)
    requires v == q * m + a && a * 10 + d == q' * m + r && r < m
    ensures (v * 10 + d) % m == r
  {
    assert 10 * (q * m) + q' * m == (10 * q + q') * m;
    RemainderUnique(v * 10 + d, 10 * q + q', r, m);
  }

  lemma WrapStep(v: nat, d: nat, m: nat)
    requires m > 0
    ensures (v % m * 10 + d) % m == (v * 10 + d) % m
  {
    var x := v % m * 10 + d;
    assert v == v / m * m + v % m && x == x / m * m + x % m;
    WrapParts(v, d, m, v / m, v % m, x / m, x % m);
  }

  lemma WidthStep(rest: string, k: nat)
    requires k < |rest| && AllDigits(rest[..k]) && IsDigit(rest[k])
    ensures AllDigits(rest[..k + 1])
    ensures Value(rest[..k + 1]) % SIZE_MAX_1 == (Value(rest[..k]) % SIZE_MAX_1 * 10 + DigitValue(rest[k])) % SIZE_MAX_1
  {
    assert rest[..k + 1][..k] == rest[..k];
    WrapStep(Value(rest[..k]), DigitValue(rest[k]), SIZE_MAX_1);
  }

  lemma DigitRunIs(s: string, n: nat)
    requires n <= |s| && AllDigits(s[..n]) && (n < |s| ==> !IsDigit(s[n]))
    ensures DigitRun(s) == n
  {
    DigitRunOf(s[..n], s[n..]);
    assert s == s[..n] + s[n..];
  }

  lemma ReadSpecIs(s: string, side: Option<char>, rest: string, n: nat)
    requires if side.Some? then s != "" && s[0] == side.value && side.value in {'-', '='} && s[1..] == rest
             else s == rest && (s != "" ==> s[0] !in {'-', '='})
    requires n <= |rest| && AllDigits(rest[..n]) && (n < |rest| ==> !IsDigit(rest[n]))
    ensures ReadSpec(s) == Spec(side, rest[..n], 0 < n < |rest| && rest[n] == '!')
  {
    DigitRunIs(rest, n);
  }

  /** Accumulates the digits at `start` in 64 bits. */
  method ScanWidth(pattern: string, start: nat) returns (width: nat, next: nat)
    requires start < |pattern| && IsDigit(pattern[start])
    ensures start < next <= |pattern| && AllDigits(pattern[start..next])
    ensures next < |pattern| ==> !IsDigit(pattern[next])
    ensures width == Value(pattern[start..next]) % SIZE_MAX_1
  {
    hide Value;
    ghost var rest := pattern[start..];
    width := DigitValue(pattern[start]);
    next := start + 1;
    FirstDigit(rest);
    while next < |pattern| && IsDigit(pattern[next])
      invariant start < next <= |pattern|
      invariant AllDigits(rest[..next - start])
      invariant width == Value(rest[..next - start]) % SIZE_MAX_1
    {
      WidthStep(rest, next - start);
      width := (width * 10 + DigitValue(pattern[next])) % SIZE_MAX_1;
      next := next + 1;
    }
    assert pattern[start..next] == rest[..next - start];
  }

  /** Scans a padding spec at `it` and moves behind it. */
  method HandlePadspec(pattern: string, it: nat) returns (p: PaddingInfo, next: nat)
    requires it <= |pattern|
    ensures next == it + |ReadSpec(pattern[it..]).Text()| && next <= |pattern|
    ensures p == ReadSpec(pattern[it..]).Padding() && p.Valid()
  {
    hide ReadSpec, Value;
    next := it;
    ghost var sideChar := None;
    if next == |pattern| {
      ReadSpecIs(pattern[it..], None, "", 0);
      return NO_PADDING, next;
    }
    var side := Left;
    match pattern[next] {
      case '-' => side := Right; sideChar := Some('-'); next := next + 1;
      case '=' => side := Center; sideChar := Some('='); next := next + 1;
      case _ =>
    }
    ghost var start, rest := next, pattern[next..];
    assert start > it ==> pattern[it..][1..] == rest;
    if next == |pattern| || !IsDigit(pattern[next]) {
      ReadSpecIs(pattern[it..], sideChar, rest, 0);
      return NO_PADDING, next;
    }
    var width;
    width, next := ScanWidth(pattern, next);
    assert pattern[start..next] == rest[..next - start];
    ReadSpecIs(pattern[it..], sideChar, rest, next - start);
    var truncate := next < |pattern| && pattern[next] == '!';
    if truncate { next := next + 1; }
    p := PaddingInfo(if width < MAX_WIDTH then width else MAX_WIDTH, side, truncate, true);
  }

  lemma FirstDigit(rest: string)
    requires rest != "" && IsDigit(rest[0])
    ensures AllDigits(rest[..1]) && Value(rest[..1]) % SIZE_MAX_1 == DigitValue(rest[0])
  {
    assert Value(rest[..1][..0]) == 0;
  }

  // ------------------------------------------------------------------- segments

  datatype Segment =
    | Literal(text: string)
    | Placeholder(spec: Spec, flag: char)
    | Incomplete(spec: Spec)
  {
    function Text(): string {
      match this
      case Literal(s) => s
      case Placeholder(spec, flag) => "%" + spec.Text() + [flag]
      case Incomplete(spec) => "%" + spec.Text()
    }
  }

  function Unparse(segments: seq<Segment>): string {
    if segments == [] then "" else segments[0].Text() + Unparse(segments[1..])
  }

  /** Literal runs are maximal, specs are as long as they can be, and only the last segment is incomplete. */
  predicate Canonical(segments: seq<Segment>) {
    if segments == [] then true
    else
      && (match segments[0]
          case Literal(s) => s != "" && '%' !in s && (|segments| > 1 ==> !segments[1].Literal?)
          case Placeholder(spec, flag) => spec.Valid() && spec.Stops(flag)
          case Incomplete(spec) => spec.Valid() && |segments| == 1)
      && Canonical(segments[1..])
  }

  function Pending(s: string): seq<Segment> {
    if s == "" then [] else [Literal(s)]
  }

  /** The segments of a pattern behind a run of literal characters. */
  function Segments(pending: string, s: string): seq<Segment>
    decreases |s|
  {
    if s == "" then Pending(pending)
    else if s[0] != '%' then Segments(pending + [s[0]], s[1..])
    else
      var spec := ReadSpec(s[1..]);
      ReadSpecFits(s[1..]);
      var n := 1 + |spec.Text()|;
      if n == |s| then Pending(pending) + [Incomplete(spec)]
      else Pending(pending) + [Placeholder(spec, s[n])] + Segments("", s[n + 1..])
  }

  lemma {:induction false} UnparseConcat(a: seq<Segment>, b: seq<Segment>)
    ensures Unparse(a + b) == Unparse(a) + Unparse(b)
  {
    if a == [] {
      assert a + b == b;
    } else {
      assert (a + b)[1..] == a[1..] + b;
      UnparseConcat(a[1..], b);
    }
  }

  lemma UnparseRun(s: string)
    ensures Unparse(Pending(s)) == s
  {
    if s != "" { assert Pending(s)[1..] == []; }
  }

  lemma UnparseOne(x: Segment)
    ensures Unparse([x]) == x.Text()
  {
    assert [x][1..] == [];
  }

  lemma UnparsePieces(pending: string, piece: Segment, rest: seq<Segment>)
    ensures Unparse(Pending(pending) + [piece] + rest) == pending + piece.Text() + Unparse(rest)
  {
    hide Unparse, Pending;
    UnparseRun(pending);
    UnparseOne(piece);
    UnparseConcat(Pending(pending) + [piece], rest);
    UnparseConcat(Pending(pending), [piece]);
  }

  /** The text of a spec in front of a pattern behind a percent sign, and what is left of it. */
  lemma PatternPieces(s: string)
    requires s != "" && s[0] == '%'
    ensures var spec := ReadSpec(s[1..]); var n := 1 + |spec.Text()|;
            && n <= |s| && spec.Valid()
            && (n == |s| ==> s == Incomplete(spec).Text())
            && (n < |s| ==> spec.Stops(s[n]) && s == Placeholder(spec, s[n]).Text() + s[n + 1..])
  {
    hide ReadSpec, Spec.Text, Spec.Stops;
    ReadSpecFits(s[1..]);
    SplitAtText(s, ReadSpec(s[1..]).Text());
  }

  lemma SplitAtText(s: string, text: string)
    requires s != "" && s[0] == '%' && |text| < |s| && s[1..][..|text|] == text
    ensures var n := 1 + |text|;
            s == "%" + text + s[n..] && (n < |s| ==> s == "%" + text + [s[n]] + s[n + 1..])
  {
    var n := 1 + |text|;
    assert s[..n] == "%" + text && s == s[..n] + s[n..];
    if n < |s| { assert s[n..] == [s[n]] + s[n + 1..]; }
  }

  /** Every character of a pattern is consumed once. */
  lemma {:induction false} SegmentsCoverPattern(pending: string, s: string)
    ensures Unparse(Segments(pending, s)) == pending + s
    decreases |s|
  {
    hide ReadSpec;
    if s == "" {
      UnparseRun(pending);
    } else if s[0] != '%' {
      SegmentsCoverPattern(pending + [s[0]], s[1..]);
      assert pending + [s[0]] + s[1..] == pending + s;
    } else {
      PatternPieces(s);
      var spec := ReadSpec(s[1..]);
      var n := 1 + |spec.Text()|;
      if n == |s| {
        UnparsePieces(pending, Incomplete(spec), []);
        assert Pending(pending) + [Incomplete(spec)] + [] == Pending(pending) + [Incomplete(spec)];
      } else {
        SegmentsCoverPattern("", s[n + 1..]);
        UnparsePieces(pending, Placeholder(spec, s[n]), Segments("", s[n + 1..]));
        AppendText(pending, Placeholder(spec, s[n]).Text(), s[n + 1..], s);
      }
    }
  }

  lemma AppendText(a: string, b: string, c: string, s: string)
    requires s == b + c
    ensures a + b + c == a + s
  {}

  lemma SegmentsOfPlaceholder(chars: string, s: string)
    requires s != "" && s[0] == '%' && 1 + |ReadSpec(s[1..]).Text()| < |s|
    ensures var spec := ReadSpec(s[1..]); var n := 1 + |spec.Text()|;
            Segments(chars, s) == Pending(chars) + [Placeholder(spec, s[n])] + Segments("", s[n + 1..])
  {
    hide ReadSpec, Spec.Text;
  }

  lemma SegmentsOfIncomplete(chars: string, s: string)
    requires s != "" && s[0] == '%' && 1 + |ReadSpec(s[1..]).Text()| == |s|
    ensures Segments(chars, s) == Pending(chars) + [Incomplete(ReadSpec(s[1..]))]
  {
    hide ReadSpec, Spec.Text;
  }

  lemma {:induction false} SegmentsCanonical(pending: string, s: string)
    requires '%' !in pending
    ensures Canonical(Segments(pending, s))
    decreases |s|
  {
    hide ReadSpec, Spec.Text, Pending;
    if s == "" {
      EmptyPattern(pending);
      CanonicalPending(pending);
    } else if s[0] != '%' {
      SegmentsCanonical(pending + [s[0]], s[1..]);
    } else {
      PatternPieces(s);
      var spec := ReadSpec(s[1..]);
      var n := 1 + |spec.Text()|;
      if n == |s| {
        SegmentsOfIncomplete(pending, s);
        CanonicalBehindRun(pending, [Incomplete(spec)]);
      } else {
        SegmentsOfPlaceholder(pending, s);
        SegmentsCanonical("", s[n + 1..]);
        CanonicalPlaceholder(pending, Placeholder(spec, s[n]), Segments("", s[n + 1..]));
      }
    }
  }

  lemma CanonicalPending(pending: string)
    requires '%' !in pending
    ensures Canonical(Pending(pending))
  {}

  lemma CanonicalPlaceholder(pending: string, x: Segment, rest: seq<Segment>)
    requires '%' !in pending && Canonical(rest)
    requires x.Placeholder? && x.spec.Valid() && x.spec.Stops(x.flag)
    ensures Canonical(Pending(pending) + [x] + rest)
  {
    hide Pending;
    assert ([x] + rest)[1..] == rest;
    CanonicalBehindRun(pending, [x] + rest);
    assert Pending(pending) + ([x] + rest) == Pending(pending) + [x] + rest;
  }

  lemma CanonicalBehindRun(pending: string, rest: seq<Segment>)
    requires '%' !in pending && Canonical(rest) && rest != [] && !rest[0].Literal?
    ensures Canonical(Pending(pending) + rest)
  {
    if pending == "" {
      assert Pending(pending) + rest == rest;
    } else {
      assert (Pending(pending) + rest)[1..] == rest;
    }
  }

  lemma {:induction false} SegmentsOfRun(pending: string, s: string, rest: string)
    requires '%' !in s
    ensures Segments(pending, s + rest) == Segments(pending + s, rest)
    decreases |s|
  {
    if s == "" {
      assert s + rest == rest && pending + s == pending;
    } else {
      assert (s + rest)[1..] == s[1..] + rest;
      SegmentsOfRun(pending + [s[0]], s[1..], rest);
      assert pending + [s[0]] + s[1..] == pending + s;
    }
  }

  lemma BehindPercent(t: string, flag: char, rest: string)
    ensures var s := "%" + t + [flag] + rest;
            s[0] == '%' && s[1..] == t + ([flag] + rest) && s[|t| + 1] == flag && s[|t| + 2..] == rest
  {}

  lemma SegmentsAtPlaceholder(pending: string, spec: Spec, flag: char, rest: string)
    requires spec.Valid() && spec.Stops(flag)
    ensures Segments(pending, Placeholder(spec, flag).Text() + rest) ==
            Pending(pending) + [Placeholder(spec, flag)] + Segments("", rest)
  {
    hide ReadSpec, Pending, Spec.Text;
    ReadSpecBack(spec, [flag] + rest);
    BehindPercent(spec.Text(), flag, rest);
  }

  lemma SegmentsAtEnd(pending: string, spec: Spec)
    requires spec.Valid()
    ensures Segments(pending, Incomplete(spec).Text()) == Pending(pending) + [Incomplete(spec)]
  {
    hide ReadSpec;
    ReadSpecBack(spec, "");
    assert Incomplete(spec).Text()[1..] == spec.Text() + "";
  }

  /** The grammar is unambiguous: a pattern has no other canonical segments than the ones found. */
  lemma {:induction false} SegmentsUnique(pending: string, segments: seq<Segment>)
    requires Canonical(segments)
    requires pending != "" && segments != [] ==> !segments[0].Literal?
    ensures Segments(pending, Unparse(segments)) == Pending(pending) + segments
    decreases |segments|
  {
    hide ReadSpec, Segments, Spec.Text;
    if segments == [] {
      EmptyPattern(pending);
    } else {
      SegmentsUnique(if segments[0].Literal? then segments[0].text else "", segments[1..]);
      SegmentsPrepend(pending, segments[0], segments[1..]);
      assert segments == [segments[0]] + segments[1..];
    }
  }

  lemma LiteralPrepend(s: string, rest: seq<Segment>)
    requires s != "" && '%' !in s && Segments(s, Unparse(rest)) == Pending(s) + rest
    ensures Segments("", s + Unparse(rest)) == Pending("") + ([Literal(s)] + rest)
  {
    hide Segments, Unparse;
    SegmentsOfRun("", s, Unparse(rest));
    assert "" + s == s;
  }

  lemma SegmentsPrepend(pending: string, x: Segment, rest: seq<Segment>)
    requires Canonical([x] + rest)
    requires pending != "" ==> !x.Literal?
    requires var run := if x.Literal? then x.text else "";
             Segments(run, Unparse(rest)) == Pending(run) + rest
    ensures Segments(pending, Unparse([x] + rest)) == Pending(pending) + ([x] + rest)
  {
    hide ReadSpec, Segments, Spec.Text, Unparse, Segment.Text;
    UnparsePrepend(x, rest);
    assert ([x] + rest)[1..] == rest;
    match x
    case Literal(s) =>
      LiteralPrepend(s, rest);
      LiteralText(s);
    case Placeholder(spec, flag) =>
      SegmentsAtPlaceholder(pending, spec, flag, Unparse(rest));
      assert Pending(pending) + [x] + rest == Pending(pending) + ([x] + rest);
    case Incomplete(spec) =>
      SegmentsAtEnd(pending, spec);
      assert rest == [] && [x] + rest == [x];
      UnparseOne(x);
  }

  lemma LiteralText(s: string)
    ensures Literal(s).Text() == s
  {}

  lemma UnparsePrepend(x: Segment, rest: seq<Segment>)
    ensures Unparse([x] + rest) == x.Text() + Unparse(rest)
  {
    assert ([x] + rest)[1..] == rest;
  }

  lemma EmptyPattern(pending: string)
    ensures Segments(pending, "") == Pending(pending)
  {}
}
