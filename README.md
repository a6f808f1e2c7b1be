# colored-text in Dafny

A model of the `colored_text` Rust library, which prints text on a UNIX
terminal in one of ten display styles and one of eight foreground colours.
A `ColoredString` pairs a text with a style and a colour. Its `Display`
implementation renders it as an ANSI "Select Graphic Rendition" control
sequence (ECMA-48, section 5.4 for the control-sequence shape and section
8.3.117 for the SGR parameters):

    ESC '[' <style code> ';' <colour code> 'm' <text> ESC '[' '0' 'm'

Files:

- `esthetics.dfy`, module `Esthetics`: the `Color` table (codes 30-37) and the
  `Style` table (codes 0-9) as datatypes with code functions. Each table also
  gets its inverse decoder, so each map is proved a bijection onto its code range.
- `decimal.dfy`, module `Decimal`: the decimal numeral of a non-negative
  integer (the part of `to_string` the renderer uses). It comes with its
  inverse, the value of a digit string, and both round trips are proved.
- `colored_text.dfy`, module `ColoredText`: the `ColoredString` value, its
  constructors `new`, `with_color`, `with_style`, the derived `Default` and
  equality, and the renderer. `Render` is the pure rendering. `Fmt` builds the
  same string step by step in a local buffer, as `fmt` does. `Parse` reads a
  rendered string back. It is proved to invert `Render` in both directions, so
  rendering loses nothing.
- `wrappers.dfy`, module `Wrappers`: the `Option` type used by the decoders.

Naming: the third style is called `Dark` in `src/esthetics.rs:17` and
`Dimmed` in `tests/lib_test.rs:18`. The model uses `Dark`. The test imports
the value type as `ColoredText` (`tests/lib_test.rs:2`), while `src/lib.rs:20`
defines `ColoredString`. The model uses `ColoredString`. The enums in
`src/esthetics.rs` derive neither `Default` nor `PartialEq`, yet the derives on
`ColoredString` (`src/lib.rs:19`) need both. The model gives both datatypes
structural equality, and the defaults are `Normal` and `White`.

## Model

| member | source | states |
|---|---|---|
| Esthetics.ColorCode | src/esthetics.rs:2-11 | every colour code lies in 30..37 (so it is written as two digits) |
| Esthetics.StyleCode | src/esthetics.rs:14-25 | every style code lies in 0..9 (so it is written as one digit) |
| Esthetics.ColorFromCode | src/esthetics.rs:2-11 | an integer names a colour exactly when it lies in 30..37, and that colour's code is the integer (the colour map is onto 30..37) |
| Esthetics.StyleFromCode | src/esthetics.rs:14-25 | an integer names a style exactly when it lies in 0..9, and that style's code is the integer (the style map is onto 0..9) |
| Esthetics.ColorCodeRoundTrip | src/esthetics.rs:2-11 | decoding a colour's code gives back that colour |
| Esthetics.StyleCodeRoundTrip | src/esthetics.rs:14-25 | decoding a style's code gives back that style |
| Esthetics.ColorCodeInjective | src/esthetics.rs:2-11 | distinct colours have distinct codes |
| Esthetics.StyleCodeInjective | src/esthetics.rs:14-25 | distinct styles have distinct codes |
| Esthetics.ParameterPairInjective | src/esthetics.rs:2-25 | the (style code, colour code) parameter pair determines style and colour, so the 10 x 8 combinations give distinct pairs |
| Decimal.Dec | src/lib.rs:87-89 | the numeral is non-empty, all digits, has no leading zero, and is one character long exactly when the number is below 10 |
| Decimal.DecValueOfDec | src/lib.rs:87-89 | reading back the numeral of n gives n |
| Decimal.DecOfDecValue | src/lib.rs:87-89 | every numeral without a leading zero is the numeral of its own value |
| Decimal.DecInjective | src/lib.rs:87-89 | distinct numbers have distinct numerals |
| ColoredText.New | src/lib.rs:28-30 | the value holds exactly the given text, style and colour |
| ColoredText.WithColor | src/lib.rs:32-46 | the value holds the given text and colour with the style Normal |
| ColoredText.WithStyle | src/lib.rs:48-62 | the value holds the given text and style with the colour White |
| ColoredText.Default | src/lib.rs:19-24 | the derived default has empty text, style Normal and colour White |
| ColoredText.WithColorIsNew | src/lib.rs:35-43 | `with_color(t, c)` equals `new(t, Normal, c)` and renders identically |
| ColoredText.WithStyleIsNew | src/lib.rs:51-59 | `with_style(t, s)` equals `new(t, s, White)` and renders identically |
| ColoredText.DefaultWorks | src/lib.rs:106-118 | the default equals `new("", Normal, White)`, compared in both directions |
| ColoredText.StyleDecimal | src/lib.rs:87 | the style code is written as the single digit of its value |
| ColoredText.ColorDecimal | src/lib.rs:89 | the colour code is written as two digits, '3' followed by the digit of code - 30 |
| ColoredText.Render | src/lib.rs:83-98 | the output starts with ESC '[' and ends with the reset ESC "[0m"; it carries the style numeral at position 2, ';' at 3, the colour numeral at 4-5, 'm' at 6, then the text verbatim up to the reset; its length is the text's plus 11 |
| ColoredText.Fmt | src/lib.rs:83-98 | building the prefix piece by piece and writing prefix, text and reset yields exactly `Render` |
| ColoredText.RenderSpelledOut | src/lib.rs:84-97 | the rendering is ESC, '[', style digit, ';', '3', colour digit, 'm', the text, then ESC "[0m" |
| ColoredText.ParseRender | src/lib.rs:83-98 | every value is recovered from its rendering |
| ColoredText.RenderParse | src/lib.rs:83-98 | every string that reads back as a value is exactly that value's rendering |
| ColoredText.RenderInjective | src/lib.rs:83-98 | distinct values (text, style or colour) render differently |
| ColoredText.InjectionPassesThrough | src/lib.rs:70-82 | a text holding its own escape sequence "\x1b[9;31mabc" appears unmodified between the prefix and the reset |
| ColoredText.DefaultRenders | src/lib.rs:84-98 | the default value renders as "\x1b[0;37m\x1b[0m" |
| ColoredText.DisplayNormal | tests/lib_test.rs:6-13 | `new("x", Normal, Black/Red/Green)` render as "\x1b[0;30mx\x1b[0m", "\x1b[0;31mx\x1b[0m", "\x1b[0;32mx\x1b[0m" |
| ColoredText.DisplayBoldToItalic | tests/lib_test.rs:15-22 | Bold/Purple, Dark/Yellow, Italic/Blue render with parameters 1;35, 2;33, 3;34 |
| ColoredText.DisplayUnderlineToBlinkFast | tests/lib_test.rs:24-31 | Underline/Purple, BlinkSlow/Cyan, BlinkFast/White render with parameters 4;35, 5;36, 6;37 |
| ColoredText.DisplayReverseToStrikethrough | tests/lib_test.rs:33-40 | Reverse/Black, Hidden/Red, Strikethrough/Green render with parameters 7;30, 8;31, 9;32 |
| ColoredText.DocExample | src/lib.rs:4-14 | underlined cyan "Hello, World" renders as "\x1b[4;36mHello, World\x1b[0m" |

## Left out

- The `Formatter` and the `write!` call (src/lib.rs:83, 92-98): writing to a stream is I/O. `Render` and `Fmt` return the string that `fmt` writes.
- Lifetimes and `&str` borrowing (src/lib.rs:20-21, 26): the text is an immutable string value.
- `Debug` and the `clone()` calls (src/lib.rs:19, 87, 89): language plumbing with no behaviour of its own.
- Decimal.Dec: models `to_string` only for non-negative integers. The `as i32` values are codes 0-9 and 30-37, never negative.
- What a terminal displays (colours, blinking, the injected styling described at src/lib.rs:70-82): only the produced string is modelled. No sanitisation is added; the text passes through verbatim.
- Chainable setters that restyle an existing value do not exist in this source: `with_color` and `with_style` build a new value from a text. So no order-independence property is stated for them.
- Esthetics.ParameterPairInjective: states that the 80 style/colour combinations give distinct parameter pairs as injectivity. It does not state it as a set cardinality.
