/**
 * The styled-text value and its rendering as an ANSI "Select Graphic
 * Rendition" control sequence (ECMA-48, sections 5.4 and 8.3.117):
 * ESC '[' <style code> ';' <colour code> 'm' <text> ESC '[' '0' 'm'.
 */
module ColoredText {
  import opened Wrappers
  import opened Decimal
  import opened Esthetics

  /** A text together with exactly one style and one colour. */
  datatype ColoredString = ColoredString(text: string, style: Style, color: Color)

  /** The control sequence introducer ESC '['. */
  const Intro: string := "\U{1B}["

  /** The reset sequence ESC '[' '0' 'm', which ends every rendered value. */
  const Clear: string := "\U{1B}[0m"

  /** The value with the given text, style and colour. */
  function New(text: string, style: Style, color: Color): (r: ColoredString)
    ensures r.text == text && r.style == style && r.color == color
  {
    ColoredString(text, style, color)
  }

  /** The value with the given colour and the style `Normal`. */
  function WithColor(text: string, color: Color): (r: ColoredString)
    ensures r.text == text && r.style == Normal && r.color == color
  {
    New(text, Normal, color)
  }

  /** The value with the given style and the colour `White`. */
  function WithStyle(text: string, style: Style): (r: ColoredString)
    ensures r.text == text && r.style == style && r.color == White
  {
    New(text, style, White)
  }

  /** The derived default: every field at its own default (empty text, Normal, White). */
  function Default(): (r: ColoredString)
    ensures r.text == [] && r.style == Normal && r.color == White
  {
    ColoredString("", Normal, White)
  }

  /** The style code is written as exactly one digit. */
  lemma StyleDecimal(s: Style)
    ensures Dec(StyleCode(s)) == [DigitChar(StyleCode(s))]
  {
  }

  /** The colour code is written as exactly two digits, the first being '3'. */
  lemma ColorDecimal(c: Color)
    ensures |Dec(ColorCode(c))| == 2
    ensures Dec(ColorCode(c)) == ['3', DigitChar(ColorCode(c) - 30)]
  {
    var n := ColorCode(c);
    assert n / 10 == 3 && n % 10 == n - 30;
  }

  /**
   * The rendered form of a value. The text is copied verbatim: escape
   * sequences inside it are not removed or escaped.
   */
  function Render(cs: ColoredString): (r: string)
    ensures |r| == |cs.text| + 11
    ensures r[..|Intro|] == Intro && r[|r| - |Clear|..] == Clear
    ensures r[2..3] == Dec(StyleCode(cs.style))
    ensures r[3] == ';' && r[6] == 'm'
    ensures r[4..6] == Dec(ColorCode(cs.color))
    ensures r[7..|r| - 4] == cs.text
  {
    StyleDecimal(cs.style);
    ColorDecimal(cs.color);
    Intro + Dec(StyleCode(cs.style)) + ";" + Dec(ColorCode(cs.color)) + "m" + cs.text + Clear
  }

  /**
   * `Display::fmt`: builds the SGR prefix step by step in a local buffer,
   * then writes prefix, text and reset sequence.
   */
  method Fmt(cs: ColoredString) returns (out: string)
    ensures out == Render(cs)
  {
    var display := Intro;
    display := display + Dec(StyleCode(cs.style));
    display := display + [';'];
    display := display + Dec(ColorCode(cs.color));
    display := display + ['m'];
    out := display + cs.text + Clear;
  }

  /** Reads a rendered string back into the value it renders, if it has that shape. */
  function Parse(s: string): (r: Option<ColoredString>)
  {
    if |s| < 11 || s[..2] != Intro || s[3] != ';' || s[6] != 'm' || s[|s| - 4..] != Clear
       || !Canonical(s[2..3]) || !Canonical(s[4..6])
    then None
    else
      match (StyleFromCode(DecValue(s[2..3])), ColorFromCode(DecValue(s[4..6])))
      case (Some(style), Some(color)) => Some(ColoredString(s[7..|s| - 4], style, color))
      case _ => None
  }

  /** Every value is recovered from its rendering. */
  lemma ParseRender(cs: ColoredString)
    ensures Parse(Render(cs)) == Some(cs)
  {
    var r := Render(cs);
    DecValueOfDec(StyleCode(cs.style));
    DecValueOfDec(ColorCode(cs.color));
    StyleCodeRoundTrip(cs.style);
    ColorCodeRoundTrip(cs.color);
  }

  /** Whatever parses is exactly the rendering of what it parses to. */
  lemma RenderParse(s: string, cs: ColoredString)
    requires Parse(s) == Some(cs)
    ensures Render(cs) == s
  {
    DecOfDecValue(s[2..3]);
    DecOfDecValue(s[4..6]);
    var r := Render(cs);
    assert |r| == |s|;
    forall i | 0 <= i < |s| ensures r[i] == s[i] {
      if i < 2 {
        assert r[i] == r[..2][i] && s[i] == s[..2][i];
      } else if i < 3 {
        assert r[i] == r[2..3][0] && s[i] == s[2..3][0];
      } else if 4 <= i < 6 {
        assert r[i] == r[4..6][i - 4] && s[i] == s[4..6][i - 4];
      } else if 7 <= i < |s| - 4 {
        assert r[i] == r[7..|r| - 4][i - 7] && s[i] == s[7..|s| - 4][i - 7];
      } else if |s| - 4 <= i {
        assert r[i] == r[|r| - 4..][i - (|s| - 4)] && s[i] == s[|s| - 4..][i - (|s| - 4)];
      }
    }
  }

  /** Distinct values render differently (the renderer loses nothing). */
  lemma RenderInjective(a: ColoredString, b: ColoredString)
    requires Render(a) == Render(b)
    ensures a == b
  {
    ParseRender(a);
    ParseRender(b);
  }

  /** `with_color(t, c)` is `new(t, Normal, c)` and renders identically. */
  lemma WithColorIsNew(text: string, color: Color)
    ensures WithColor(text, color) == New(text, Normal, color)
    ensures Render(WithColor(text, color)) == Render(New(text, Normal, color))
  {
  }

  /** `with_style(t, s)` is `new(t, s, White)` and renders identically. */
  lemma WithStyleIsNew(text: string, style: Style)
    ensures WithStyle(text, style) == New(text, style, White)
    ensures Render(WithStyle(text, style)) == Render(New(text, style, White))
  {
  }

  /** The default value equals `new("", Normal, White)`, compared either way round. */
  lemma DefaultWorks()
    ensures Default() == New("", Normal, White)
    ensures New("", Normal, White) == Default()
  {
  }

  /** Text that carries its own escape sequence is passed through unchanged. */
  lemma InjectionPassesThrough()
    ensures Render(New("\U{1B}[9;31mabc", Normal, White))
         == "\U{1B}[0;37m\U{1B}[9;31mabc\U{1B}[0m"
  {
    StyleDecimal(Normal);
    ColorDecimal(White);
  }

  /** The rendering of the empty default value. */
  lemma DefaultRenders()
    ensures Render(Default()) == "\U{1B}[0;37m\U{1B}[0m"
  {
    StyleDecimal(Normal);
    ColorDecimal(White);
  }

  /** The rendering spelled out character by character around the text. */
  lemma RenderSpelledOut(cs: ColoredString)
    ensures Render(cs)
         == ['\U{1B}', '[', DigitChar(StyleCode(cs.style)), ';', '3', DigitChar(ColorCode(cs.color) - 30), 'm']
            + cs.text + Clear
  {
    StyleDecimal(cs.style);
    ColorDecimal(cs.color);
  }

  /** The display test's expected strings for the style Normal. */
  lemma DisplayNormal()
    ensures Render(New("x", Normal, Black)) == "\U{1B}[0;30mx\U{1B}[0m"
    ensures Render(New("x", Normal, Red)) == "\U{1B}[0;31mx\U{1B}[0m"
    ensures Render(New("x", Normal, Green)) == "\U{1B}[0;32mx\U{1B}[0m"
  {
    RenderSpelledOut(New("x", Normal, Black));
    RenderSpelledOut(New("x", Normal, Red));
    RenderSpelledOut(New("x", Normal, Green));
  }

  /** The display test's expected strings for Bold, Dark and Italic. */
  lemma DisplayBoldToItalic()
    ensures Render(New("x", Bold, Purple)) == "\U{1B}[1;35mx\U{1B}[0m"
    ensures Render(New("x", Dark, Yellow)) == "\U{1B}[2;33mx\U{1B}[0m"
    ensures Render(New("x", Italic, Blue)) == "\U{1B}[3;34mx\U{1B}[0m"
  {
    RenderSpelledOut(New("x", Bold, Purple));
    RenderSpelledOut(New("x", Dark, Yellow));
    RenderSpelledOut(New("x", Italic, Blue));
  }

  /** The display test's expected strings for Underline, BlinkSlow and BlinkFast. */
  lemma DisplayUnderlineToBlinkFast()
    ensures Render(New("x", Underline, Purple)) == "\U{1B}[4;35mx\U{1B}[0m"
    ensures Render(New("x", BlinkSlow, Cyan)) == "\U{1B}[5;36mx\U{1B}[0m"
    ensures Render(New("x", BlinkFast, White)) == "\U{1B}[6;37mx\U{1B}[0m"
  {
    RenderSpelledOut(New("x", Underline, Purple));
    RenderSpelledOut(New("x", BlinkSlow, Cyan));
    RenderSpelledOut(New("x", BlinkFast, White));
  }

  /** The display test's expected strings for Reverse, Hidden and Strikethrough. */
  lemma DisplayReverseToStrikethrough()
    ensures Render(New("x", Reverse, Black)) == "\U{1B}[7;30mx\U{1B}[0m"
    ensures Render(New("x", Hidden, Red)) == "\U{1B}[8;31mx\U{1B}[0m"
    ensures Render(New("x", Strikethrough, Green)) == "\U{1B}[9;32mx\U{1B}[0m"
  {
    RenderSpelledOut(New("x", Reverse, Black));
    RenderSpelledOut(New("x", Hidden, Red));
    RenderSpelledOut(New("x", Strikethrough, Green));
  }

  /** The library's introductory example: underlined cyan "Hello, World". */
  lemma DocExample()
    ensures Render(New("Hello, World", Underline, Cyan)) == "\U{1B}[4;36mHello, World\U{1B}[0m"
  {
    RenderSpelledOut(New("Hello, World", Underline, Cyan));
  }
}
