/**
 * How an action describes itself in a tooltip: the accelerator as text
 * ("Ctrl+Shift+Z", with "Cmd+" on Mac), plain text wrapped in HTML with
 * `<` and `>` escaped and an explicit `#rrggbb` foreground colour,
 * and the accelerator appended to a plain or an HTML tip.
 */
module ToolTips {
  import opened Wrappers
  import opened Text
  import opened Keys
  import opened Rgb
  import KeyFormat

  // ---- the `#rrggbb` colour ----

  predicate IsHexDigit(c: char) {
    '0' <= c <= '9' || 'a' <= c <= 'f'
  }

  /** One lower-case hexadecimal digit, as `%x` prints it. */
  function HexDigit(d: nat): (c: char)
    requires d < 16
    ensures IsHexDigit(c)
  {
    if d < 10 then ('0' as int + d) as char else ('a' as int + d - 10) as char
  }

  /** `%02x`: two digits, high nibble first. */
  function Hex2(v: int): (s: string)
    requires 0 <= v < 256
    ensures |s| == 2 && IsHexDigit(s[0]) && IsHexDigit(s[1])
  {
    [HexDigit(v / 16), HexDigit(v % 16)]
  }

  /** `String.format("#%02x%02x%02x", r, g, b)`. */
  function ColorHex(c: Color): (s: string)
    requires Valid(c)
    ensures |s| == 7 && s[0] == '#'
    ensures forall i :: 1 <= i < 7 ==> IsHexDigit(s[i])
  {
    "#" + Hex2(c.red) + Hex2(c.green) + Hex2(c.blue)
  }

  function DigitValue(c: char): (d: nat)
    requires IsHexDigit(c)
    ensures d < 16
  {
    if c <= '9' then c as int - '0' as int else c as int - 'a' as int + 10
  }

  /** Reads a `#rrggbb` string back. */
  function ParseColorHex(s: string): Option<Color> {
    if |s| == 7 && s[0] == '#' && forall i :: 1 <= i < 7 ==> IsHexDigit(s[i]) then
      Some(Color(16 * DigitValue(s[1]) + DigitValue(s[2]),
                 16 * DigitValue(s[3]) + DigitValue(s[4]),
                 16 * DigitValue(s[5]) + DigitValue(s[6])))
    else None
  }

  lemma DigitRoundTrip(d: nat)
    requires d < 16
    ensures DigitValue(HexDigit(d)) == d
  {
  }

  /** The hex string determines the colour: reading it back gives the colour that was printed. */
  lemma ColorHexRoundTrip(c: Color)
    requires Valid(c)
    ensures ParseColorHex(ColorHex(c)) == Some(c)
  {
    var s := ColorHex(c);
    DigitRoundTrip(c.red / 16);
    DigitRoundTrip(c.red % 16);
    DigitRoundTrip(c.green / 16);
    DigitRoundTrip(c.green % 16);
    DigitRoundTrip(c.blue / 16);
    DigitRoundTrip(c.blue % 16);
    assert s[1] == HexDigit(c.red / 16) && s[2] == HexDigit(c.red % 16);
    assert s[3] == HexDigit(c.green / 16) && s[4] == HexDigit(c.green % 16);
    assert s[5] == HexDigit(c.blue / 16) && s[6] == HexDigit(c.blue % 16);
  }

  // ---- escaping ----

  /** What escaping makes of one character. */
  function EscapeChar(c: char): string {
    if c == '<' then "&lt;" else if c == '>' then "&gt;" else [c]
  }

  /** Escaping character by character: the reference for the two `replace` calls. */
  function Escaped(s: string): string
    decreases |s|
  {
    if s == [] then [] else EscapeChar(s[0]) + Escaped(s[1..])
  }

  /** `text.replace("<", "&lt;").replace(">", "&gt;")`. */
  function Escape(text: string): string {
    Replace(Replace(text, "<", "&lt;"), ">", "&gt;")
  }

  /** Replacing one character by a string, position by position. */
  function SubstChar(s: string, c: char, q: string): string
    decreases |s|
  {
    if s == [] then [] else (if s[0] == c then q else [s[0]]) + SubstChar(s[1..], c, q)
  }

  lemma {:induction false} ReplaceOneChar(s: string, c: char, q: string)
    ensures Replace(s, [c], q) == SubstChar(s, c, q)
    decreases |s|
  {
    if s != [] {
      ReplaceOneChar(s[1..], c, q);
      if s[0] == c {
        assert s[..1] == [c];
      } else {
        assert s[..1] != [c];
      }
    }
  }

  lemma {:induction false} SubstAppend(a: string, b: string, c: char, q: string)
    ensures SubstChar(a + b, c, q) == SubstChar(a, c, q) + SubstChar(b, c, q)
    decreases |a|
  {
    if a != [] {
      var h := if a[0] == c then q else [a[0]];
      assert (a + b)[0] == a[0] && (a + b)[1..] == a[1..] + b;
      SubstAppend(a[1..], b, c, q);
      calc {
        SubstChar(a + b, c, q);
        h + SubstChar(a[1..] + b, c, q);
        h + (SubstChar(a[1..], c, q) + SubstChar(b, c, q));
        (h + SubstChar(a[1..], c, q)) + SubstChar(b, c, q);
        SubstChar(a, c, q) + SubstChar(b, c, q);
      }
    } else {
      assert a + b == b;
    }
  }

  lemma {:induction false} SubstEscaped(s: string)
    ensures SubstChar(SubstChar(s, '<', "&lt;"), '>', "&gt;") == Escaped(s)
    decreases |s|
  {
    if s != [] {
      var head := if s[0] == '<' then "&lt;" else [s[0]];
      assert SubstChar(s, '<', "&lt;") == head + SubstChar(s[1..], '<', "&lt;");
      SubstAppend(head, SubstChar(s[1..], '<', "&lt;"), '>', "&gt;");
      SubstEscaped(s[1..]);
      if s[0] == '<' {
        assert SubstChar("&lt;", '>', "&gt;") == "&lt;" by {
          assert "&lt;"[1..] == "lt;" && "lt;"[1..] == "t;" && "t;"[1..] == ";" && ";"[1..] == [];
        }
      } else {
        assert SubstChar([s[0]], '>', "&gt;") == EscapeChar(s[0]) by {
          assert [s[0]][1..] == [];
        }
      }
    }
  }

  /** The two replacements escape every character on its own. */
  lemma EscapeIsEscaped(s: string)
    ensures Escape(s) == Escaped(s)
  {
    ReplaceOneChar(s, '<', "&lt;");
    assert "<" == ['<'] && ">" == ['>'];
    ReplaceOneChar(SubstChar(s, '<', "&lt;"), '>', "&gt;");
    SubstEscaped(s);
  }

  /** No `<` or `>` survives escaping. */
  lemma {:induction false} EscapedHasNoBrackets(s: string)
    ensures '<' !in Escaped(s) && '>' !in Escaped(s)
    decreases |s|
  {
    if s != [] {
      EscapedHasNoBrackets(s[1..]);
      assert '<' !in EscapeChar(s[0]) && '>' !in EscapeChar(s[0]);
    }
  }

  lemma {:induction false} EscapedAppend(a: string, b: string)
    ensures Escaped(a + b) == Escaped(a) + Escaped(b)
    decreases |a|
  {
    if a != [] {
      assert (a + b)[0] == a[0] && (a + b)[1..] == a[1..] + b;
      EscapedAppend(a[1..], b);
      calc {
        Escaped(a + b);
        EscapeChar(a[0]) + Escaped(a[1..] + b);
        EscapeChar(a[0]) + (Escaped(a[1..]) + Escaped(b));
        (EscapeChar(a[0]) + Escaped(a[1..])) + Escaped(b);
        Escaped(a) + Escaped(b);
      }
    } else {
      assert a + b == b;
    }
  }

  /** Text without brackets is left as it is. */
  lemma {:induction false} EscapedPlain(s: string)
    requires '<' !in s && '>' !in s
    ensures Escaped(s) == s
    decreases |s|
  {
    if s != [] {
      EscapedPlain(s[1..]);
      assert s == [s[0]] + s[1..];
    }
  }

  // ---- wrapping ----

  const HtmlTag := "<html>"
  const SpanTag := "<span style='color:"
  const TagEnd := "'>"
  const SpanClose := "</span></html>"

  /** Everything before the escaped text. */
  function Opening(fg: Color): string
    requires Valid(fg)
  {
    HtmlTag + SpanOpening(fg)
  }

  /** The foreground used: the look-and-feel's tooltip colour, black when it has none. */
  function Foreground(fg: Option<Color>): Color {
    if fg.Some? then fg.value else Black
  }

  /**
   * `wrapTooltipHtml`: a null text stays null, HTML text is kept, plain text
   * is escaped and put in a span coloured with the tooltip foreground.
   */
  function WrapTooltipHtml(text: Option<string>, fg: Option<Color>): (r: Option<string>)
    requires fg.Some? ==> Valid(fg.value)
    ensures r.None? <==> text.None?
    ensures r.Some? ==> StartsWith(r.value, HtmlTag)
    ensures text.Some? && StartsWith(text.value, HtmlTag) ==> r == text
  {
    match text
    case None => None
    case Some(t) =>
      if StartsWith(t, HtmlTag) then text
      else
        var r := Opening(Foreground(fg)) + Escape(t) + SpanClose;
        assert r[..|HtmlTag|] == HtmlTag;
        Some(r)
  }

  /** Wrapping twice is wrapping once, whatever colour the second call sees. */
  lemma WrapIdempotent(text: Option<string>, fg: Option<Color>, fg': Option<Color>)
    requires fg.Some? ==> Valid(fg.value)
    requires fg'.Some? ==> Valid(fg'.value)
    ensures WrapTooltipHtml(WrapTooltipHtml(text, fg), fg') == WrapTooltipHtml(text, fg)
  {
  }

  /** A wrapped plain text is the opening, the text escaped character by character, and the closing tags. */
  lemma WrappedPlain(t: string, fg: Option<Color>)
    requires fg.Some? ==> Valid(fg.value)
    requires !StartsWith(t, HtmlTag)
    ensures WrapTooltipHtml(Some(t), fg) == Some(Opening(Foreground(fg)) + Escaped(t) + SpanClose)
    ensures '<' !in Escaped(t) && '>' !in Escaped(t)
  {
    EscapeIsEscaped(t);
    EscapedHasNoBrackets(t);
  }

  // ---- the accelerator ----

  /** `getCTRLMask`: the menu-shortcut modifier, Cmd on Mac and Ctrl elsewhere. */
  function CtrlMask(isMac: bool): Modifier {
    if isMac then Meta else Ctrl
  }

  /** The Plus key becomes the Equals key, with the same modifiers, when the use-equals setting is on. */
  function AdjustPlus(ks: KeyStroke, useEqualsKey: bool): (r: KeyStroke)
    ensures r.modifiers == ks.modifiers
    ensures ks.code == VkPlus && useEqualsKey ==> r.code == VkEquals
    ensures !(ks.code == VkPlus && useEqualsKey) ==> r == ks
  {
    if ks.code == VkPlus && useEqualsKey then KeyStroke(ks.modifiers, VkEquals) else ks
  }

  const CmdText := "Cmd+"

  /** The modifiers in the order the tooltip shows them. */
  function DisplayPrefix(m: set<Modifier>): string {
    (if Ctrl in m then KeyFormat.CtrlText else "")
    + (if Meta in m then CmdText else "")
    + (if Alt in m then KeyFormat.AltText else "")
    + (if Shift in m then KeyFormat.ShiftText else "")
  }

  /** `getAcceleratorDisplayText`: null without an accelerator, else Ctrl+, Cmd+, Alt+, Shift+ as held, then the key text. */
  function AcceleratorDisplayText(acc: Option<KeyStroke>, keyText: KeyCode -> string): (r: Option<string>)
    ensures r.None? <==> acc.None?
    ensures acc.Some? ==> var k := keyText(acc.value.code);
      |k| <= |r.value| && r.value[|r.value| - |k|..] == k
    ensures acc.Some? && acc.value.modifiers == {} ==> r.value == keyText(acc.value.code)
  {
    match acc
    case None => None
    case Some(ks) =>
      var m := ks.modifiers;
      Some(DisplayPrefix(m) + keyText(ks.code))
  }

  /** Without Cmd and outside the keys the shortcut dialog renames, a tooltip names a shortcut as the dialog does. */
  lemma DisplayAgreesWithDialog(ks: KeyStroke, keyText: KeyCode -> string)
    requires Meta !in ks.modifiers
    requires ks.code !in {VkSpace, VkPlus, VkAdd, VkMinus, VkSubtract}
    ensures AcceleratorDisplayText(Some(ks), keyText) == Some(KeyFormat.FormatKeyStroke(Some(ks), keyText))
  {
    var m := ks.modifiers;
    var c := if Ctrl in m then KeyFormat.CtrlText else "";
    assert DisplayPrefix(m) == c + "" + (if Alt in m then KeyFormat.AltText else "") + (if Shift in m then KeyFormat.ShiftText else "");
    assert c + "" == c;
    assert KeyFormat.KeyName(ks.code, keyText) == keyText(ks.code);
  }

  /**
   * The tooltip's text is the shortcut dialog's, with "Cmd+" put in after
   * "Ctrl+" when Meta is held; outside the keys the dialog renames, nothing
   * else differs.
   */
  lemma DisplayInsertsCmd(ks: KeyStroke, keyText: KeyCode -> string)
    requires ks.code !in {VkSpace, VkPlus, VkAdd, VkMinus, VkSubtract}
    ensures AcceleratorDisplayText(Some(ks), keyText)
         == Some((if Ctrl in ks.modifiers then KeyFormat.CtrlText else "")
                 + (if Meta in ks.modifiers then CmdText else "")
                 + KeyFormat.FormatKeyStroke(Some(KeyStroke(ks.modifiers - {Ctrl}, ks.code)), keyText))
  {
    var m := ks.modifiers;
    var c := if Ctrl in m then KeyFormat.CtrlText else "";
    var e := if Meta in m then CmdText else "";
    var a := if Alt in m then KeyFormat.AltText else "";
    var h := if Shift in m then KeyFormat.ShiftText else "";
    assert KeyFormat.ModifierPrefix(m - {Ctrl}) == "" + a + h;
    assert KeyFormat.KeyName(ks.code, keyText) == keyText(ks.code);
    assert c + e + a + h + keyText(ks.code) == c + e + ("" + a + h + keyText(ks.code));
  }

  /**
   * The menu shortcut `setAcceleratorCTRLplus` installs shows as "Cmd+" and
   * the key on a Mac and as "Ctrl+" and the key elsewhere.
   */
  lemma MenuModifierShown(isMac: bool, code: KeyCode, useEqualsKey: bool, keyText: KeyCode -> string)
    ensures var ks := AdjustPlus(KeyStroke({CtrlMask(isMac)}, code), useEqualsKey);
      AcceleratorDisplayText(Some(ks), keyText) == Some((if isMac then CmdText else KeyFormat.CtrlText) + keyText(ks.code))
  {
    var ks := AdjustPlus(KeyStroke({CtrlMask(isMac)}, code), useEqualsKey);
    assert ks.modifiers == {CtrlMask(isMac)};
    if isMac {
      assert DisplayPrefix(ks.modifiers) == "" + CmdText + "" + "";
      assert "" + CmdText + "" + "" == CmdText;
    } else {
      assert Meta !in ks.modifiers && Alt !in ks.modifiers && Shift !in ks.modifiers;
      assert DisplayPrefix(ks.modifiers) == KeyFormat.CtrlText + "" + "" + "";
      assert KeyFormat.CtrlText + "" + "" + "" == KeyFormat.CtrlText;
    }
  }

  /** The text appended to a tip. */
  function Suffix(accel: string): string {
    " (" + accel + ")"
  }

  /**
   * `appendAccelerator`: without an accelerator or a tip the tip is returned;
   * an HTML tip gets the suffix before its closing tags, a plain tip at its end.
   */
  function AppendAccelerator(tip: Option<string>, accel: Option<string>): (r: Option<string>)
    ensures accel.None? || tip.None? ==> r == tip
    ensures accel.Some? && tip.Some? && !StartsWith(tip.value, HtmlTag) ==> r == Some(tip.value + Suffix(accel.value))
  {
    if accel.None? || tip.None? then tip
    else if StartsWith(tip.value, HtmlTag) then Some(Replace(tip.value, SpanClose, Suffix(accel.value) + SpanClose))
    else Some(tip.value + Suffix(accel.value))
  }

  /** A tag other than a closing one is copied over by the replacement of the closing tags. */
  lemma TagSkipped(x: string, rest: string, q: string)
    requires |x| >= 2 && x[0] == '<' && x[1] != '/' && '<' !in x[1..]
    ensures Replace(x + rest, SpanClose, q) == x + Replace(rest, SpanClose, q)
  {
    assert SpanClose[0] == '<' && SpanClose[1] == '/';
    OpeningTagSkipped(x, rest, SpanClose, q);
  }

  /** The same for any target starting with `</`. */
  lemma OpeningTagSkipped(x: string, rest: string, p: string, q: string)
    requires |p| >= 2 && p[0] == '<' && p[1] == '/'
    requires |x| >= 2 && x[0] == '<' && x[1] != '/' && '<' !in x[1..]
    ensures Replace(x + rest, p, q) == x + Replace(rest, p, q)
  {
    var s := x + rest;
    assert s[0] == x[0] && s[1] == x[1];
    if |s| >= |p| {
      assert s[..|p|][1] != p[1];
    }
    assert s[1..] == x[1..] + rest;
    ReplaceSkipsFirstChar(x[1..], rest, p, q);
    calc {
      Replace(s, p, q);
      [s[0]] + Replace(s[1..], p, q);
      [x[0]] + (x[1..] + Replace(rest, p, q));
      { assert [x[0]] + x[1..] == x; }
      x + Replace(rest, p, q);
    }
  }

  lemma {:induction false} NoBracketInHex(c: Color)
    requires Valid(c)
    ensures '<' !in ColorHex(c)
  {
    var s := ColorHex(c);
    forall i | 0 <= i < |s| ensures s[i] != '<' {
      if i > 0 {
        assert IsHexDigit(s[i]);
      }
    }
  }

  /** The span tag with the colour: a tag other than a closing one, with no other `<`. */
  function SpanOpening(fg: Color): string
    requires Valid(fg)
  {
    SpanTag + ColorHex(fg) + TagEnd
  }

  lemma SpanSkipped(fg: Color, rest: string, q: string)
    requires Valid(fg)
    ensures Replace(SpanOpening(fg) + rest, SpanClose, q) == SpanOpening(fg) + Replace(rest, SpanClose, q)
  {
    var span := SpanOpening(fg);
    NoBracketInHex(fg);
    assert '<' !in SpanTag[1..];
    assert span[1..] == SpanTag[1..] + ColorHex(fg) + TagEnd;
    TagSkipped(span, rest, q);
  }

  lemma HtmlSkipped(rest: string, q: string)
    ensures Replace(HtmlTag + rest, SpanClose, q) == HtmlTag + Replace(rest, SpanClose, q)
  {
    assert '<' !in HtmlTag[1..];
    TagSkipped(HtmlTag, rest, q);
  }

  lemma CloseFound(e: string, q: string)
    requires '<' !in e
    ensures Replace(e + SpanClose, SpanClose, q) == e + q
  {
    ReplaceAtFront(SpanClose, [], q);
    ReplaceShort([], SpanClose, q);
    assert SpanClose + [] == SpanClose;
    ReplaceSkipsFirstChar(e, SpanClose, SpanClose, q);
  }

  /** Three copied-over parts in front of the closing tags. */
  lemma ReplaceChain(h: string, sp: string, e: string, p: string, q: string)
    requires |p| > 0
    requires Replace(h + (sp + (e + p)), p, q) == h + Replace(sp + (e + p), p, q)
    requires Replace(sp + (e + p), p, q) == sp + Replace(e + p, p, q)
    requires Replace(e + p, p, q) == e + q
    ensures Replace(h + sp + e + p, p, q) == h + sp + e + q
  {
    KeyFormat.Regroup(h, sp, e, p);
    KeyFormat.Regroup(h, sp, e, q);
  }

  /** The replacement in `appendAccelerator` finds the closing tags of a wrapped tip and nothing before them. */
  lemma AppendToWrapped(fg: Color, e: string, a: string)
    requires Valid(fg) && '<' !in e
    ensures Replace(Opening(fg) + e + SpanClose, SpanClose, Suffix(a) + SpanClose) == Opening(fg) + e + (Suffix(a) + SpanClose)
  {
    var q := Suffix(a) + SpanClose;
    var span := SpanOpening(fg);
    HtmlSkipped(span + (e + SpanClose), q);
    SpanSkipped(fg, e + SpanClose, q);
    CloseFound(e, q);
    ReplaceChain(HtmlTag, span, e, SpanClose, q);
  }

  lemma PlainStaysPlain(t: string, s: string)
    requires !StartsWith(t, HtmlTag) && |s| > 0 && s[0] == ' '
    ensures !StartsWith(t + s, HtmlTag)
  {
    if |t| < |HtmlTag| && |t + s| >= |HtmlTag| {
      assert (t + s)[|t|] == ' ';
      assert (t + s)[..|HtmlTag|][|t|] == ' ';
    } else if |t| >= |HtmlTag| {
      assert (t + s)[..|HtmlTag|] == t[..|HtmlTag|];
    }
  }

  lemma AppendToHtml(w: string, a: string)
    requires StartsWith(w, HtmlTag)
    ensures AppendAccelerator(Some(w), Some(a)) == Some(Replace(w, SpanClose, Suffix(a) + SpanClose))
  {
  }

  lemma EscapedWithSuffix(t: string, a: string)
    requires '<' !in a && '>' !in a
    ensures Escaped(t + Suffix(a)) == Escaped(t) + Suffix(a)
  {
    EscapedAppend(t, Suffix(a));
    assert '<' !in Suffix(a) && '>' !in Suffix(a);
    EscapedPlain(Suffix(a));
  }

  lemma Reassociate(o: string, e: string, x: string, c: string)
    ensures o + e + (x + c) == o + (e + x) + c
  {
  }

  lemma AppendAfterWrap(t: string, a: string, fg: Option<Color>)
    requires fg.Some? ==> Valid(fg.value)
    requires !StartsWith(t, HtmlTag)
    ensures AppendAccelerator(WrapTooltipHtml(Some(t), fg), Some(a))
         == Some(Opening(Foreground(fg)) + Escaped(t) + (Suffix(a) + SpanClose))
  {
    var w := Opening(Foreground(fg)) + Escaped(t) + SpanClose;
    WrappedPlain(t, fg);
    AppendToHtml(w, a);
    AppendToWrapped(Foreground(fg), Escaped(t), a);
  }

  lemma WrapWithSuffix(t: string, a: string, fg: Option<Color>)
    requires fg.Some? ==> Valid(fg.value)
    requires !StartsWith(t, HtmlTag)
    requires '<' !in a && '>' !in a
    ensures WrapTooltipHtml(Some(t + Suffix(a)), fg) == Some(Opening(Foreground(fg)) + (Escaped(t) + Suffix(a)) + SpanClose)
  {
    PlainStaysPlain(t, Suffix(a));
    WrappedPlain(t + Suffix(a), fg);
    EscapedWithSuffix(t, a);
  }

  /**
   * For a plain tip, appending the accelerator after wrapping gives what
   * wrapping the tip with the accelerator already appended gives, as long as
   * the accelerator text has no brackets.
   */
  lemma AppendCommutesWithWrap(t: string, a: string, fg: Option<Color>)
    requires fg.Some? ==> Valid(fg.value)
    requires !StartsWith(t, HtmlTag)
    requires '<' !in a && '>' !in a
    ensures AppendAccelerator(WrapTooltipHtml(Some(t), fg), Some(a)) == WrapTooltipHtml(Some(t + Suffix(a)), fg)
  {
    var o := Opening(Foreground(fg));
    var e := Escaped(t);
    AppendAfterWrap(t, a, fg);
    WrapWithSuffix(t, a, fg);
    Reassociate(o, e, Suffix(a), SpanClose);
  }

  // ---- icon-only buttons ----

  /** An HTML tip still starts with `<html>` after the accelerator has been put before its closing tags. */
  lemma AppendKeepsHtml(tip: string, a: string)
    requires StartsWith(tip, HtmlTag)
    ensures StartsWith(Replace(tip, SpanClose, Suffix(a) + SpanClose), HtmlTag)
  {
    var rest := tip[|HtmlTag|..];
    assert tip == HtmlTag + rest;
    HtmlSkipped(rest, Suffix(a) + SpanClose);
    var r := HtmlTag + Replace(rest, SpanClose, Suffix(a) + SpanClose);
    assert r[..|HtmlTag|] == HtmlTag;
  }

  /**
   * The tip of `createJButtonNoText` without a tooltip provider: with an
   * accelerator, an HTML tip gets it before its closing tags and a plain tip
   * is wrapped with it appended; without one the tip is kept as it is.
   */
  function DirectNoTextTip(tip: Option<string>, accelText: Option<string>, fg: Option<Color>): (r: Option<string>)
    requires fg.Some? ==> Valid(fg.value)
    ensures accelText.None? || tip.None? ==> r == tip
  {
    if accelText.Some? && tip.Some? then
      if StartsWith(tip.value, HtmlTag) then Some(Replace(tip.value, SpanClose, Suffix(accelText.value) + SpanClose))
      else WrapTooltipHtml(Some(tip.value + Suffix(accelText.value)), fg)
    else tip
  }

  /** The tip of `createJButtonNoText` with a tooltip provider: the accelerator appended, then wrapped. */
  function ProviderNoTextTip(tip: Option<string>, accelText: Option<string>, fg: Option<Color>): (r: Option<string>)
    requires fg.Some? ==> Valid(fg.value)
    ensures r.None? <==> tip.None?
    ensures r.Some? ==> StartsWith(r.value, HtmlTag)
  {
    if accelText.Some? && tip.Some? then WrapTooltipHtml(Some(tip.value + Suffix(accelText.value)), fg)
    else WrapTooltipHtml(tip, fg)
  }

  /** With an accelerator, an icon-only button shows the ordinary tip with the accelerator, wrapped. */
  lemma DirectNoTextIsWrappedAppend(tip: Option<string>, accelText: string, fg: Option<Color>)
    requires fg.Some? ==> Valid(fg.value)
    ensures DirectNoTextTip(tip, Some(accelText), fg) == WrapTooltipHtml(AppendAccelerator(tip, Some(accelText)), fg)
  {
    if tip.Some? && StartsWith(tip.value, HtmlTag) {
      AppendKeepsHtml(tip.value, accelText);
    }
  }

  /** For a plain tip the two kinds of icon-only button agree. */
  lemma NoTextVariantsAgree(tip: string, accelText: Option<string>, fg: Option<Color>)
    requires fg.Some? ==> Valid(fg.value)
    requires accelText.Some? && !StartsWith(tip, HtmlTag)
    ensures DirectNoTextTip(Some(tip), accelText, fg) == ProviderNoTextTip(Some(tip), accelText, fg)
  {
  }

  // ---- the action ----

  /** The part of a `ToolTipAction` the tooltip text depends on; the icon is an opaque handle. */
  class ToolTipAction {
    const name: string
    var icon: Option<int>
    var toolTipText: Option<string>
    var accelerator: Option<KeyStroke>
    var hasToolTipProvider: bool

    constructor(name: string, icon: Option<int>)
      ensures this.name == name && this.icon == icon
      ensures toolTipText.None? && accelerator.None? && !hasToolTipProvider
    {
      this.name := name;
      this.icon := icon;
      toolTipText := None;
      accelerator := None;
      hasToolTipProvider := false;
    }

    /** `setToolTipProvider`; what the provider returns is a parameter of the tooltip functions. */
    method SetToolTipProvider()
      modifies this
      ensures hasToolTipProvider
      ensures icon == old(icon) && toolTipText == old(toolTipText) && accelerator == old(accelerator)
    {
      hasToolTipProvider := true;
    }

    method SetIcon(icon: Option<int>)
      modifies this
      ensures this.icon == icon && toolTipText == old(toolTipText) && accelerator == old(accelerator)
      ensures hasToolTipProvider == old(hasToolTipProvider)
    {
      this.icon := icon;
    }

    /** `setToolTip`: stores the text after line breaking, which `breakLines` stands for. */
    method SetToolTip(text: string, breakLines: string -> string)
      modifies this
      ensures toolTipText == Some(breakLines(text)) && icon == old(icon) && accelerator == old(accelerator)
      ensures hasToolTipProvider == old(hasToolTipProvider)
    {
      toolTipText := Some(breakLines(text));
    }

    /** `setAccelerator(KeyStroke)`, with Plus replaced by Equals under the use-equals setting. */
    method SetAccelerator(ks: KeyStroke, useEqualsKey: bool)
      modifies this
      ensures accelerator == Some(AdjustPlus(ks, useEqualsKey))
      ensures icon == old(icon) && toolTipText == old(toolTipText) && hasToolTipProvider == old(hasToolTipProvider)
    {
      accelerator := Some(AdjustPlus(ks, useEqualsKey));
    }

    /** `setAcceleratorCTRLplus(char)`: the key with the platform's menu modifier; the char is taken as the key code. */
    method SetAcceleratorCtrlPlus(code: KeyCode, isMac: bool, useEqualsKey: bool)
      modifies this
      ensures accelerator == Some(AdjustPlus(KeyStroke({CtrlMask(isMac)}, code), useEqualsKey))
      ensures icon == old(icon) && toolTipText == old(toolTipText) && hasToolTipProvider == old(hasToolTipProvider)
    {
      SetAccelerator(KeyStroke({CtrlMask(isMac)}, code), useEqualsKey);
    }

    /** `setAcceleratorCTRLplus(String)`: the key code of the parsed stroke with the menu modifier; an unparsable string fails. */
    method SetAcceleratorCtrlPlusText(key: string, getKeyStroke: string -> Option<KeyStroke>, isMac: bool, useEqualsKey: bool)
      returns (r: Result<(), string>)
      modifies this
      ensures r.Err? <==> getKeyStroke(key).None?
      ensures r.Err? ==> accelerator == old(accelerator)
      ensures r.Ok? ==> accelerator == Some(AdjustPlus(KeyStroke({CtrlMask(isMac)}, getKeyStroke(key).value.code), useEqualsKey))
      ensures icon == old(icon) && toolTipText == old(toolTipText) && hasToolTipProvider == old(hasToolTipProvider)
    {
      var ks := getKeyStroke(key);
      if ks.None? {
        return Err("null key stroke");
      }
      SetAcceleratorCtrlPlus(ks.value.code, isMac, useEqualsKey);
      return Ok(());
    }

    /** `setAccelerator(String)`: a string Swing cannot parse makes the call fail and leaves the action as it was. */
    method SetAcceleratorText(key: string, getKeyStroke: string -> Option<KeyStroke>, useEqualsKey: bool) returns (r: Result<(), string>)
      modifies this
      ensures r.Err? <==> getKeyStroke(key).None?
      ensures r.Err? ==> accelerator == old(accelerator)
      ensures r.Ok? ==> accelerator == Some(AdjustPlus(getKeyStroke(key).value, useEqualsKey))
      ensures icon == old(icon) && toolTipText == old(toolTipText) && hasToolTipProvider == old(hasToolTipProvider)
    {
      var ks := getKeyStroke(key);
      if ks.None? {
        return Err("null key stroke");
      }
      SetAccelerator(ks.value, useEqualsKey);
      return Ok(());
    }

    /** `enableAcceleratorIn`: binds the accelerator to this action in a component's input map, or fails without one. */
    method EnableAcceleratorIn(inputMap: map<KeyStroke, string>) returns (r: Result<map<KeyStroke, string>, string>)
      ensures r.Err? <==> accelerator.None?
      ensures r.Ok? ==> r.value == inputMap[accelerator.value := name]
    {
      if accelerator.None? {
        return Err("no accelerator given");
      }
      return Ok(inputMap[accelerator.value := name]);
    }

    /** The tooltip `createJButton` sets, if any. */
    function ButtonToolTip(keyText: KeyCode -> string): (r: Option<string>)
      reads this
      ensures r.None? <==> toolTipText.None?
    {
      if toolTipText.None? then None
      else AppendAccelerator(toolTipText, AcceleratorDisplayText(accelerator, keyText))
    }

    /**
     * The tooltip `createJButtonNoText` gives: without a provider the stored
     * tip, or the button text when there is none; with a provider what it returns.
     */
    function NoTextToolTip(buttonText: Option<string>, providerTip: Option<string>, keyText: KeyCode -> string, fg: Option<Color>): (r: Option<string>)
      requires fg.Some? ==> Valid(fg.value)
      reads this
      ensures hasToolTipProvider ==> (r.None? <==> providerTip.None?)
      ensures !hasToolTipProvider && accelerator.None? ==> r == (if toolTipText.Some? then toolTipText else buttonText)
    {
      var accelText := AcceleratorDisplayText(accelerator, keyText);
      if hasToolTipProvider then ProviderNoTextTip(providerTip, accelText, fg)
      else DirectNoTextTip(if toolTipText.Some? then toolTipText else buttonText, accelText, fg)
    }
  }
}
