/**
 * ANSI colouring of console text (html_test_report/color_text.py): a colour
 * function wraps its text in an SGR "select graphic rendition" sequence
 * (section 8.3.117 of ECMA-48) and a reset, but only when the stream is a
 * terminal and the platform is not Windows.
 */
module ColorText {

  /** What `is_term` can observe of a stream. */
  datatype Stream = Stream(hasIsatty: bool, isatty: bool)

  /** The eight named colour functions of the module. */
  datatype Color = Black | Red | Green | Yellow | Blue | Purple | Cyan | LightGrey

  const Esc: char := 27 as char

  /** SGR 0, "default rendition", which ends every coloured text. */
  const Reset: string := [Esc] + "[0m"

  /** `is_term(stdout)`; `platform` is what `platform.system()` returns. */
  predicate IsTerm(stdout: Stream, platform: string) {
    stdout.hasIsatty && stdout.isatty && platform != "Windows"
  }

  /** The foreground colour parameter N of SGR code 3N used for `c`. */
  function ColorIndex(c: Color): (n: nat)
    ensures n < 8
  {
    match c
    case Black => 0
    case Red => 1
    case Green => 2
    case Yellow => 3
    case Blue => 4
    case Purple => 5
    case Cyan => 6
    case LightGrey => 7
  }

  /** The `seq` argument that the module passes to `color_factory` for `c`. */
  function Prefix(c: Color): (p: string)
    ensures |p| == 7
  {
    [Esc] + "[0;3" + [('0' as int + ColorIndex(c)) as char] + "m"
  }

  /** The function that `color_factory(prefix)` returns, applied to `text`. */
  function Colorize(prefix: string, text: string, stdout: Stream, platform: string): (r: string)
    ensures IsTerm(stdout, platform) ==> r == prefix + text + Reset
    ensures !IsTerm(stdout, platform) ==> r == text
  {
    if IsTerm(stdout, platform) then prefix + text + Reset else text
  }

  /** A named colour function (`red`, `green`, ...) applied to `text`. */
  function ColorText(c: Color, text: string, stdout: Stream, platform: string): string {
    Colorize(Prefix(c), text, stdout, platform)
  }

  /** Removing one colour prefix and one trailing reset, if both are there. */
  function Uncolor(s: string): string {
    if |s| >= 7 + |Reset| && s[..2] == [Esc, '['] && s[|s| - |Reset|..] == Reset
    then s[7..|s| - |Reset|]
    else s
  }

  /** On a terminal the coloured text is the SGR prefix, the text and a
      reset; stripping them gives back the text. */
  lemma ColorOnTerminal(c: Color, text: string, stdout: Stream, platform: string)
    requires IsTerm(stdout, platform)
    ensures ColorText(c, text, stdout, platform)[..7] == Prefix(c)
    ensures Uncolor(ColorText(c, text, stdout, platform)) == text
    ensures |ColorText(c, text, stdout, platform)| == |text| + 11
  {
    var r := ColorText(c, text, stdout, platform);
    assert r == Prefix(c) + text + Reset;
    assert r[..2] == [Esc, '['];
    assert r[|r| - |Reset|..] == Reset;
    assert r[7..|r| - |Reset|] == text;
  }

  /** Off a terminal, or on Windows, every colour function is the identity. */
  lemma ColorOffTerminal(c: Color, text: string, stdout: Stream, platform: string)
    requires !stdout.hasIsatty || !stdout.isatty || platform == "Windows"
    ensures ColorText(c, text, stdout, platform) == text
  {
  }

  /** Distinct colours use distinct SGR prefixes. */
  lemma PrefixInjective(c: Color, d: Color)
    requires c != d
    ensures Prefix(c) != Prefix(d)
  {
    assert Prefix(c)[5] != Prefix(d)[5];
  }
}
