/** The cells a view is made of and the terminal text they print as
    (core/engine/view/buffer.go). A colour of 0 stands for the terminal's
    default colour; any other value is an index into the 256-colour
    palette. */
module Buffer {
  import opened Kinds
  import opened Wrappers
  import Decimal
  import Element
  import Seqs

  /** The escape character that opens every control sequence. */
  const Esc: char := 27 as char

  /** The select-graphic-rendition sequences the styles are printed with. */
  const Reset: string := [Esc] + "[m"
  const ForegroundIntro: string := [Esc] + "[38;5;"
  const BackgroundIntro: string := [Esc] + "[48;5;"

  datatype Style = Style(foreground: int, background: int)

  /** One character cell of the screen, with the element that painted it and
      the z-index it was painted at. */
  datatype Cell = Cell(style: Style, content: char, element: Option<Element.Handle>, zIndex: uint8)

  /** The selector of PrintRuneRepeat, a byte of single-bit flags: along a
      row, along a column, or both (the two bits or-ed together). */
  type AxisMask = uint8

  const AxisX: AxisMask := 1
  const AxisY: AxisMask := 2
  const AxisBoth: AxisMask := 3

  /** newCell: a blank in the default colours, painted by no element, at
      z-index 0. */
  function NewCell(): (c: Cell)
    ensures c.content == ' ' && c.style == Style(0, 0) && c.element == None && c.zIndex == 0
  {
    Cell(Style(0, 0), ' ', None, 0)
  }

  /** Cell.Flush: blank again, but the z-index stays. */
  function Flushed(c: Cell): (r: Cell)
    ensures r == NewCell().(zIndex := c.zIndex)
  {
    c.(style := Style(0, 0), content := ' ', element := None)
  }

  function NewStyle(fg: int, bg: int): (s: Style)
    ensures s.foreground == fg && s.background == bg
  {
    Style(fg, bg)
  }

  /** Style.String: the sequence that puts the terminal into the style. A
      style with a default colour resets first, since the sequence cannot
      name the default colour itself. */
  function StyleString(s: Style): (r: string)
    ensures |r| >= 3 && r[0] == Esc && r[|r| - 1] == 'm'
  {
    if s.background == 0 && s.foreground == 0 then Reset
    else if s.background == 0 then Reset + ForegroundIntro + Decimal.Show(s.foreground) + "m"
    else if s.foreground == 0 then Reset + BackgroundIntro + Decimal.Show(s.background) + "m"
    else ForegroundIntro + Decimal.Show(s.foreground) + "m" + BackgroundIntro + Decimal.Show(s.background) + "m"
  }

  // ------------------------------------------------------------------
  // What a terminal makes of those sequences
  // ------------------------------------------------------------------

  /** The number of characters before the first 'm'. */
  function UntilM(t: string): (k: nat)
    ensures k <= |t| && (k < |t| ==> t[k] == 'm')
    ensures forall j :: 0 <= j < k ==> t[j] != 'm'
  {
    if t == [] || t[0] == 'm' then 0 else 1 + UntilM(t[1..])
  }

  /** The terminal's colours after it reads `s` in state `st`: a reset
      restores both defaults and the palette sequences set one colour each;
      anything else is not a sequence a style prints. */
  function Sgr(st: Style, s: string): Option<Style>
    decreases |s|
  {
    if s == [] then Some(st)
    else if |s| >= 3 && s[..3] == Reset then Sgr(Style(0, 0), s[3..])
    else if |s| >= 7 && (s[..7] == ForegroundIntro || s[..7] == BackgroundIntro) then
      var k := UntilM(s[7..]);
      if 7 + k < |s| && Decimal.WellFormed(s[7..7 + k]) then
        var n := Decimal.Atoi(s[7..7 + k]);
        Sgr(if s[..7] == ForegroundIntro then st.(foreground := n) else st.(background := n), s[7 + k + 1..])
      else None
    else None
  }

  /** A number printed in decimal has no 'm' in it. */
  lemma {:induction false} UntilMShow(n: int, rest: string)
    ensures UntilM(Decimal.Show(n) + "m" + rest) == |Decimal.Show(n)|
  {
    var t := Decimal.Show(n) + "m" + rest;
    forall j | 0 <= j < |Decimal.Show(n)|
      ensures t[j] != 'm'
    {
      Decimal.ShowChars(n, j);
    }
    assert t[|Decimal.Show(n)|] == 'm';
  }

  /** A palette sequence sets its own colour and nothing else. */
  lemma SgrPalette(st: Style, fg: bool, n: int, rest: string)
    requires Decimal.MinInt64 <= n <= Decimal.MaxInt64
    ensures Sgr(st, (if fg then ForegroundIntro else BackgroundIntro) + Decimal.Show(n) + "m" + rest) ==
            Sgr(if fg then st.(foreground := n) else st.(background := n), rest)
  {
    var intro := if fg then ForegroundIntro else BackgroundIntro;
    Seqs.AppendAssoc(intro, Decimal.Show(n) + "m", rest);
    Seqs.AppendAssoc(intro, Decimal.Show(n), "m");
    UntilMShow(n, rest);
    Decimal.AtoiShow(n);
    SgrIntro(st, fg, Decimal.Show(n), rest);
  }

  /** One palette sequence read off the front: the digits up to the first
      'm' give the colour. */
  lemma SgrIntro(st: Style, fg: bool, digits: string, rest: string)
    requires UntilM(digits + "m" + rest) == |digits| && Decimal.WellFormed(digits)
    ensures Sgr(st, (if fg then ForegroundIntro else BackgroundIntro) + (digits + "m" + rest)) ==
            Sgr(if fg then st.(foreground := Decimal.Atoi(digits)) else st.(background := Decimal.Atoi(digits)), rest)
  {
    var intro := if fg then ForegroundIntro else BackgroundIntro;
    var t := digits + "m" + rest;
    var s := intro + t;
    var k := |digits|;
    assert s[..7] == intro && s[7..] == t;
    assert s[..3] != Reset by {
      assert s[2] == intro[2] != 'm';
    }
    assert t[..k] == digits && t[k + 1..] == rest;
    assert s[7..7 + k] == digits && s[7 + k + 1..] == rest;
    assert UntilM(s[7..]) == k && 7 + k < |s|;
    var n := Decimal.Atoi(digits);
    if fg {
      assert Sgr(st, s) == Sgr(st.(foreground := n), rest);
    } else {
      IntrosDiffer();
      assert Sgr(st, s) == Sgr(st.(background := n), rest);
    }
  }

  /** The two palette introducers differ (in their third character). */
  lemma IntrosDiffer()
    ensures ForegroundIntro != BackgroundIntro
  {
    assert ForegroundIntro[2] != BackgroundIntro[2];
  }

  lemma SgrReset(st: Style, rest: string)
    ensures Sgr(st, Reset + rest) == Sgr(Style(0, 0), rest)
  {
    assert (Reset + rest)[..3] == Reset;
    assert (Reset + rest)[3..] == rest;
  }

  /** Whatever colours the terminal had, printing a style's sequence leaves it
      in exactly that style. */
  lemma SgrStyleString(prev: Style, s: Style)
    requires Decimal.MinInt64 <= s.foreground <= Decimal.MaxInt64
    requires Decimal.MinInt64 <= s.background <= Decimal.MaxInt64
    ensures Sgr(prev, StyleString(s)) == Some(s)
  {
    if s.background == 0 && s.foreground == 0 {
      SgrReset(prev, []);
      assert Reset + [] == Reset;
    } else if s.background == 0 {
      SgrOneColour(prev, true, s.foreground);
    } else if s.foreground == 0 {
      SgrOneColour(prev, false, s.background);
    } else {
      SgrBothColours(prev, s);
    }
  }

  /** A reset followed by one palette sequence: that colour over the
      defaults. */
  lemma SgrOneColour(prev: Style, fg: bool, n: int)
    requires Decimal.MinInt64 <= n <= Decimal.MaxInt64
    ensures Sgr(prev, Reset + (if fg then ForegroundIntro else BackgroundIntro) + Decimal.Show(n) + "m") ==
            Some(if fg then Style(n, 0) else Style(0, n))
  {
    var intro := if fg then ForegroundIntro else BackgroundIntro;
    assert Reset + intro + Decimal.Show(n) + "m" == Reset + (intro + Decimal.Show(n) + "m" + []);
    SgrReset(prev, intro + Decimal.Show(n) + "m" + []);
    SgrPalette(Style(0, 0), fg, n, []);
  }

  /** Both palette sequences, foreground first. */
  lemma SgrBothColours(prev: Style, s: Style)
    requires Decimal.MinInt64 <= s.foreground <= Decimal.MaxInt64
    requires Decimal.MinInt64 <= s.background <= Decimal.MaxInt64
    ensures Sgr(prev, ForegroundIntro + Decimal.Show(s.foreground) + "m" + BackgroundIntro + Decimal.Show(s.background) + "m") == Some(s)
  {
    var tail := BackgroundIntro + Decimal.Show(s.background) + "m";
    assert ForegroundIntro + Decimal.Show(s.foreground) + "m" + BackgroundIntro + Decimal.Show(s.background) + "m" ==
           ForegroundIntro + Decimal.Show(s.foreground) + "m" + tail;
    SgrPalette(prev, true, s.foreground, tail);
    assert tail == BackgroundIntro + Decimal.Show(s.background) + "m" + [];
    SgrPalette(prev.(foreground := s.foreground), false, s.background, []);
  }

  // ------------------------------------------------------------------
  // Printing a cell
  // ------------------------------------------------------------------

  /** Cell.String: the style's sequence followed by the content. */
  function CellString(c: Cell): (r: string)
    ensures |r| >= 1 && r[|r| - 1] == c.content
    ensures r[..|r| - 1] == StyleString(c.style)
  {
    StyleString(c.style) + [c.content]
  }

  /** The number of bytes UTF-8 spends on a character. */
  function Utf8Len(c: char): (n: nat)
    ensures 1 <= n <= 4
  {
    if c as int < 0x80 then 1
    else if c as int < 0x800 then 2
    else if c as int < 0x1_0000 then 3
    else 4
  }

  /** The UTF-8 encoding of one character: the code point's bits, six at a
      time from the low end, behind a lead byte that gives the length. */
  function Utf8(c: char): (bs: seq<uint8>)
    ensures |bs| == Utf8Len(c)
  {
    var n := c as int;
    var q1 := n / 64;
    var q2 := q1 / 64;
    var q3 := q2 / 64;
    if n < 0x80 then [n]
    else if n < 0x800 then [0xC0 + q1, 0x80 + n % 64]
    else if n < 0x1_0000 then [0xE0 + q2, 0x80 + q1 % 64, 0x80 + n % 64]
    else [0xF0 + q3, 0x80 + q2 % 64, 0x80 + q1 % 64, 0x80 + n % 64]
  }

  /** The code point one UTF-8 sequence spells, read back from its bytes. */
  function Utf8Value(bs: seq<uint8>): int
  {
    var b := seq(|bs|, i requires 0 <= i < |bs| => bs[i] as int);
    if |b| == 1 then b[0]
    else if |b| == 2 then (b[0] - 0xC0) * 64 + (b[1] - 0x80)
    else if |b| == 3 then ((b[0] - 0xE0) * 64 + (b[1] - 0x80)) * 64 + (b[2] - 0x80)
    else if |b| == 4 then (((b[0] - 0xF0) * 64 + (b[1] - 0x80)) * 64 + (b[2] - 0x80)) * 64 + (b[3] - 0x80)
    else -1
  }

  /** Reading an encoding back gives the character, so no two characters
      share an encoding. */
  lemma Utf8RoundTrip(c: char)
    ensures Utf8Value(Utf8(c)) == c as int
  {
    var n := c as int;
    var q1 := n / 64;
    var q2 := q1 / 64;
    assert n == q1 * 64 + n % 64;
    assert q1 == q2 * 64 + q1 % 64;
    assert q2 == (q2 / 64) * 64 + q2 % 64;
  }

  /** A string converted to bytes: the encodings one after the other. */
  function Utf8String(s: string): (bs: seq<uint8>)
    ensures |bs| >= |s|
  {
    if s == [] then [] else Utf8String(s[..|s| - 1]) + Utf8(s[|s| - 1])
  }

  /** Cell.Bytes: the cell's text as UTF-8. The style's sequence is plain
      ASCII, so it comes out byte for byte, and the content follows. */
  function CellBytes(c: Cell): (bs: seq<uint8>)
    ensures |bs| == |StyleString(c.style)| + Utf8Len(c.content)
    ensures forall i :: 0 <= i < |StyleString(c.style)| ==> bs[i] == StyleString(c.style)[i] as int
    ensures bs[|StyleString(c.style)|..] == Utf8(c.content)
  {
    var s := StyleString(c.style);
    AsciiStyle(c.style);
    Utf8Ascii(s);
    assert CellString(c)[..|s|] == s;
    Utf8String(CellString(c))
  }

  /** Every character of a style's sequence is ASCII. */
  lemma AsciiStyle(s: Style)
    ensures forall i :: 0 <= i < |StyleString(s)| ==> StyleString(s)[i] as int < 0x80
  {
    ShowAscii(s.foreground);
    ShowAscii(s.background);
  }

  /** A number in decimal is ASCII. */
  lemma ShowAscii(n: int)
    ensures forall i :: 0 <= i < |Decimal.Show(n)| ==> Decimal.Show(n)[i] as int < 0x80
  {
    forall i | 0 <= i < |Decimal.Show(n)| ensures Decimal.Show(n)[i] as int < 0x80 {
      Decimal.ShowChars(n, i);
    }
  }

  /** An ASCII string converts to its own codes, one byte each. */
  lemma {:induction false} Utf8Ascii(s: string)
    requires forall i :: 0 <= i < |s| ==> s[i] as int < 0x80
    ensures |Utf8String(s)| == |s|
    ensures forall i :: 0 <= i < |s| ==> Utf8String(s)[i] == s[i] as int
  {
    if s != [] {
      Utf8Ascii(s[..|s| - 1]);
    }
  }
}
