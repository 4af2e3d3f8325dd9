/**
 Field padding of the pattern formatter: the two padders, the text buffer they
 work on, and the digit counts that some fields declare as their width.
 */
module Padding {
  import opened Wrappers

  const MAX_WIDTH: nat := 64

  /** Where the spaces go. */
  datatype Side = Left | Right | Center

  datatype PaddingInfo = PaddingInfo(width: nat, side: Side, truncate: bool, enabled: bool) {
    /** What a pattern can ask for: no more than the spaces there are. */
    predicate Valid() {
      width <= MAX_WIDTH
    }
  }

  const NO_PADDING := PaddingInfo(0, Left, false, false)

  function Spaces(n: nat): (s: string)
    ensures |s| == n
  {
    seq(n, _ => ' ')
  }

  /** The spaces in front of a field that lacks `missing` characters; the rest goes behind it. */
  function Before(side: Side, missing: nat): nat {
    match side
    case Left => missing
    case Right => 0
    case Center => missing / 2
  }

  /**
   The buffer after a field is written, given the size the field declares. None
   is the end of the program: the buffer is resized to a negative size.
   */
  function Padded(dest: string, declared: nat, p: PaddingInfo, text: string): Option<string> {
    if !p.enabled then Some(dest + text)
    else if declared <= p.width then
      var l := Before(p.side, p.width - declared);
      Some(dest + Spaces(l) + text + Spaces(p.width - declared - l))
    else if p.truncate then
      var size := |dest| + |text| + p.width - declared;
      if size < 0 then None else Some((dest + text)[..size])
    else Some(dest + text)
  }

  /**
   A field that declares its true size gets exactly its width when it truncates
   and at least its width otherwise, with its text placed by side, and leaves
   alone what was written earlier.
   */
  lemma FieldWidth(dest: string, p: PaddingInfo, text: string)
    requires p.enabled
    ensures Padded(dest, |text|, p, text).Some?
    ensures var out := Padded(dest, |text|, p, text).value;
            var l, w := Before(p.side, if |text| < p.width then p.width - |text| else 0), p.width;
            && dest <= out
            && (if |text| <= w then |out| == |dest| + w && out[|dest|..] == Spaces(l) + text + Spaces(w - |text| - l)
                else if p.truncate then |out| == |dest| + w && out[|dest|..] == text[..w]
                else |out| == |dest| + |text| && out[|dest|..] == text)
  {
    var out := Padded(dest, |text|, p, text).value;
    if |text| <= p.width {
      var l := Before(p.side, p.width - |text|);
      assert out == dest + (Spaces(l) + text + Spaces(p.width - |text| - l));
    } else if p.truncate {
      assert out == dest + text[..p.width];
    }
  }

  /** In the centre the odd space goes to the right. */
  lemma CentreIsBalanced(missing: nat)
    ensures var l := Before(Center, missing); l <= missing - l <= l + 1
  {}

  /**
   A declared size that is only an estimate can cut into earlier output: exactly
   when a truncating field declares more than its width and its text together.
   */
  lemma EarlierOutputKeptExactly(dest: string, declared: nat, p: PaddingInfo, text: string)
    ensures (Padded(dest, declared, p, text).Some? && dest <= Padded(dest, declared, p, text).value) <==>
            !(p.enabled && p.truncate && declared > p.width + |text|)
  {
    if p.enabled && declared <= p.width {
      var l := Before(p.side, p.width - declared);
      assert Padded(dest, declared, p, text).value == dest + (Spaces(l) + text + Spaces(p.width - declared - l));
    } else if p.enabled && p.truncate && declared <= p.width + |text| {
      var out := Padded(dest, declared, p, text).value;
      assert out[..|dest|] == dest;
    }
  }

  // --------------------------------------------------------------- the objects

  /** The output buffer. */
  class MemoryBuf {
    var text: string

    constructor ()
      ensures text == ""
    {
      text := "";
    }

    method Append(s: string)
      modifies this
      ensures text == old(text) + s
    {
      text := text + s;
    }

    method PushBack(c: char)
      modifies this
      ensures text == old(text) + [c]
    {
      text := text + [c];
    }

    /** A negative size becomes a huge unsigned one, which cannot be allocated. */
    method Resize(size: int) returns (ok: bool)
      requires size <= |text|
      modifies this
      ensures ok == (size >= 0)
      ensures text == if ok then old(text)[..size] else old(text)
    {
      ok := size >= 0;
      if ok { text := text[..size]; }
    }
  }

  /** Pads in front when it is made and behind, or truncates, when it goes out of scope. */
  class ScopedPadder {
    const padinfo: PaddingInfo
    const dest: MemoryBuf
    var remainingPad: int

    constructor (wrappedSize: nat, padinfo: PaddingInfo, dest: MemoryBuf)
      requires padinfo.Valid()
      modifies dest
      ensures this.padinfo == padinfo && this.dest == dest
      ensures var missing := padinfo.width - wrappedSize;
              if missing <= 0 then remainingPad == missing && dest.text == old(dest.text)
              else var l := Before(padinfo.side, missing);
                   remainingPad == missing - l && dest.text == old(dest.text) + Spaces(l)
    {
      this.padinfo, this.dest := padinfo, dest;
      remainingPad := padinfo.width - wrappedSize;
      new;
      if remainingPad <= 0 { return; }
      if padinfo.side == Left {
        PadIt(remainingPad);
        remainingPad := 0;
      } else if padinfo.side == Center {
        var halfPad, reminder := remainingPad / 2, remainingPad % 2;
        PadIt(halfPad);
        remainingPad := halfPad + reminder;
      }
    }

    /** There are 64 spaces to take from; no call asks for more, or for a negative count. */
    method PadIt(count: int)
      requires 0 <= count <= MAX_WIDTH
      modifies dest
      ensures dest.text == old(dest.text) + Spaces(count)
    {
      dest.Append(Spaces(count));
    }

    method GoOutOfScope() returns (ok: bool)
      requires remainingPad <= MAX_WIDTH
      modifies dest
      ensures ok == (padinfo.truncate ==> |old(dest.text)| + remainingPad >= 0)
      ensures ok ==> (dest.text ==
                      if remainingPad >= 0 then old(dest.text) + Spaces(remainingPad)
                      else if padinfo.truncate then old(dest.text)[..|old(dest.text)| + remainingPad]
                      else old(dest.text))
    {
      ok := true;
      if remainingPad >= 0 {
        PadIt(remainingPad);
      } else if padinfo.truncate {
        ok := dest.Resize(|dest.text| + remainingPad);
      }
    }
  }

  /** One field between the construction and the destruction of its padder. */
  method AppendField(dest: MemoryBuf, declared: nat, p: PaddingInfo, text: string) returns (ok: bool)
    requires p.Valid()
    modifies dest
    ensures ok == Padded(old(dest.text), declared, p, text).Some?
    ensures ok ==> Some(dest.text) == Padded(old(dest.text), declared, p, text)
  {
    ok := true;
    if p.enabled {
      assert Spaces(0) == "" && dest.text + Spaces(0) == dest.text;
      var padder := new ScopedPadder(declared, p, dest);
      dest.Append(text);
      ok := padder.GoOutOfScope();
    } else {
      dest.Append(text);
    }
  }

  // -------------------------------------------------------------------- digits

  function Decimal(n: nat): (s: string)
    ensures |s| >= 1
  {
    if n < 10 then [Digit(n)] else Decimal(n / 10) + [Digit(n % 10)]
  }

  function Digit(d: nat): char
    requires d < 10
  {
    '0' + d as char
  }

  function IntText(n: int): string {
    if n < 0 then "-" + Decimal(-n) else Decimal(n)
  }

  lemma FourDigitsLess(n: nat)
    requires n >= 10000
    ensures |Decimal(n)| == 4 + |Decimal(n / 10000)|
  {
    assert n / 10 >= 1000 && n / 10 / 10 >= 100 && n / 10 / 10 / 10 >= 10;
    assert n / 10 / 10 / 10 / 10 == n / 10000;
    assert |Decimal(n)| == 1 + |Decimal(n / 10)|;
    assert |Decimal(n / 10)| == 1 + |Decimal(n / 10 / 10)|;
    assert |Decimal(n / 10 / 10)| == 1 + |Decimal(n / 10 / 10 / 10)|;
  }

  lemma FewDigits(n: nat)
    requires n < 10000
    ensures |Decimal(n)| == if n < 10 then 1 else if n < 100 then 2 else if n < 1000 then 3 else 4
  {
    if n >= 10 { assert |Decimal(n)| == 1 + |Decimal(n / 10)|; }
    if n >= 100 { assert |Decimal(n / 10)| == 1 + |Decimal(n / 10 / 10)|; }
    if n >= 1000 { assert |Decimal(n / 10 / 10)| == 1 + |Decimal(n / 10 / 10 / 10)|; }
  }

  /** Counts four digits at a time; the count is the length of the decimal text. */
  method CountDigits(n: nat) returns (count: nat)
    ensures count == |Decimal(n)|
  {
    var rest := n;
    count := 1;
    while true
      invariant count - 1 + |Decimal(rest)| == |Decimal(n)|
      decreases rest
    {
      if rest < 10000 { FewDigits(rest); }
      if rest < 10 { return count; }
      if rest < 100 { return count + 1; }
      if rest < 1000 { return count + 2; }
      if rest < 10000 { return count + 3; }
      FourDigitsLess(rest);
      rest := rest / 10000;
      count := count + 4;
    }
  }
}
