/**
 * The two closed code tables of the library: the eight foreground colours,
 * whose codes are the SGR parameters 30-37, and the ten display styles, whose
 * codes are the SGR parameters 0-9 (ECMA-48, section 8.3.117).
 */
module Esthetics {
  import opened Wrappers

  /** The foreground colours a text can be displayed in. */
  datatype Color = Black | Red | Green | Yellow | Blue | Purple | Cyan | White

  /** The style a text can be displayed in (`Dark` is also called Dimmed). */
  datatype Style =
    | Normal | Bold | Dark | Italic | Underline
    | BlinkSlow | BlinkFast | Reverse | Hidden | Strikethrough

  /** The integer code of a colour: its SGR foreground parameter. */
  function ColorCode(c: Color): (n: int)
    ensures 30 <= n <= 37
  {
    match c
    case Black => 30
    case Red => 31
    case Green => 32
    case Yellow => 33
    case Blue => 34
    case Purple => 35
    case Cyan => 36
    case White => 37
  }

  /** The integer code of a style: its SGR display-attribute parameter. */
  function StyleCode(s: Style): (n: int)
    ensures 0 <= n <= 9
  {
    match s
    case Normal => 0
    case Bold => 1
    case Dark => 2
    case Italic => 3
    case Underline => 4
    case BlinkSlow => 5
    case BlinkFast => 6
    case Reverse => 7
    case Hidden => 8
    case Strikethrough => 9
  }

  /** The colour whose code is `n`, if there is one. */
  function ColorFromCode(n: int): (r: Option<Color>)
    ensures r.Some? <==> 30 <= n <= 37
    ensures r.Some? ==> ColorCode(r.value) == n
  {
    if n == 30 then Some(Black)
    else if n == 31 then Some(Red)
    else if n == 32 then Some(Green)
    else if n == 33 then Some(Yellow)
    else if n == 34 then Some(Blue)
    else if n == 35 then Some(Purple)
    else if n == 36 then Some(Cyan)
    else if n == 37 then Some(White)
    else None
  }

  /** The style whose code is `n`, if there is one. */
  function StyleFromCode(n: int): (r: Option<Style>)
    ensures r.Some? <==> 0 <= n <= 9
    ensures r.Some? ==> StyleCode(r.value) == n
  {
    if n == 0 then Some(Normal)
    else if n == 1 then Some(Bold)
    else if n == 2 then Some(Dark)
    else if n == 3 then Some(Italic)
    else if n == 4 then Some(Underline)
    else if n == 5 then Some(BlinkSlow)
    else if n == 6 then Some(BlinkFast)
    else if n == 7 then Some(Reverse)
    else if n == 8 then Some(Hidden)
    else if n == 9 then Some(Strikethrough)
    else None
  }

  /** Decoding the code of a colour gives the colour back. */
  lemma ColorCodeRoundTrip(c: Color)
    ensures ColorFromCode(ColorCode(c)) == Some(c)
  {
  }

  /** Decoding the code of a style gives the style back. */
  lemma StyleCodeRoundTrip(s: Style)
    ensures StyleFromCode(StyleCode(s)) == Some(s)
  {
  }

  /** Distinct colours have distinct codes. */
  lemma ColorCodeInjective(a: Color, b: Color)
    requires ColorCode(a) == ColorCode(b)
    ensures a == b
  {
  }

  /** Distinct styles have distinct codes. */
  lemma StyleCodeInjective(a: Style, b: Style)
    requires StyleCode(a) == StyleCode(b)
    ensures a == b
  {
  }

  /**
   * The pair of SGR parameters (style code, colour code) determines the style
   * and the colour: the 10 styles and 8 colours give 80 distinct pairs.
   */
  lemma ParameterPairInjective(s1: Style, c1: Color, s2: Style, c2: Color)
    requires (StyleCode(s1), ColorCode(c1)) == (StyleCode(s2), ColorCode(c2))
    ensures s1 == s2 && c1 == c2
  {
  }
}
