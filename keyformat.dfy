/**
 * Shortcut strings as the dialog shows and stores them ("Ctrl+Shift+N"):
 * formatting a captured key stroke, rewriting a stored string into the
 * syntax Swing's `KeyStroke.getKeyStroke(String)` reads ("ctrl shift N"),
 * and what a key press does to the cell being edited.
 */
module KeyFormat {
  import opened Wrappers
  import opened Text
  import opened Keys

  const CtrlText := "Ctrl+"
  const AltText := "Alt+"
  const ShiftText := "Shift+"

  /** The modifier part of a display string; Meta (Cmd) has no spelling and is dropped. */
  function ModifierPrefix(mods: set<Modifier>): string {
    (if Ctrl in mods then CtrlText else "")
    + (if Alt in mods then AltText else "")
    + (if Shift in mods then ShiftText else "")
  }

  /** The key part: fixed names for Space, Plus and Minus (either key), the AWT key text otherwise. */
  function KeyName(code: KeyCode, keyText: KeyCode -> string): string {
    match code
    case VkSpace => "Space"
    case VkPlus => "Plus"
    case VkAdd => "Plus"
    case VkMinus => "Minus"
    case VkSubtract => "Minus"
    case _ => keyText(code)
  }

  /** `formatKeyStroke`: "" for no key stroke. */
  function FormatKeyStroke(ks: Option<KeyStroke>, keyText: KeyCode -> string): string {
    match ks
    case None => ""
    case Some(k) => ModifierPrefix(k.modifiers) + KeyName(k.code, keyText)
  }

  // ---- reading a display string back ----

  /** Drops `p` from the front of `s` when it is there. */
  function StripPrefix(s: string, p: string): (r: (bool, string))
    ensures r.0 <==> StartsWith(s, p)
    ensures r.0 ==> s == p + r.1
    ensures !r.0 ==> r.1 == s
  {
    if StartsWith(s, p) then (true, s[|p|..]) else (false, s)
  }

  /** Reads the modifiers and the key name off a display string, in the order they are written. */
  function ParseDisplay(s: string): (set<Modifier>, string) {
    var (c, s1) := StripPrefix(s, CtrlText);
    var (a, s2) := StripPrefix(s1, AltText);
    var (h, s3) := StripPrefix(s2, ShiftText);
    ((if c then {Ctrl} else {}) + (if a then {Alt} else {}) + (if h then {Shift} else {}), s3)
  }

  /** A key name that cannot be mistaken for a modifier. */
  predicate Unambiguous(name: string) {
    !StartsWith(name, CtrlText) && !StartsWith(name, AltText) && !StartsWith(name, ShiftText)
  }

  lemma StartsWithAppend(a: string, b: string, p: string)
    requires StartsWith(b, p)
    ensures StartsWith(a + b, a + p)
  {
    assert (a + b)[..|a + p|] == a + b[..|p|];
  }

  function Part(present: bool, text: string): string {
    if present then text else ""
  }

  /** A present part is stripped whole; an absent one is not mistaken for it. */
  lemma StripShift(h: bool, n: string)
    requires Unambiguous(n)
    ensures StripPrefix(Part(h, ShiftText) + n, ShiftText) == (h, n)
  {
    var s := Part(h, ShiftText) + n;
    if h {
      assert s[..|ShiftText|] == ShiftText;
      assert s[|ShiftText|..] == n;
    } else {
      assert s == n;
    }
  }

  lemma StripAlt(a: bool, h: bool, n: string)
    requires Unambiguous(n)
    ensures StripPrefix(Part(a, AltText) + (Part(h, ShiftText) + n), AltText) == (a, Part(h, ShiftText) + n)
  {
    var rest := Part(h, ShiftText) + n;
    var s := Part(a, AltText) + rest;
    if a {
      assert s[..|AltText|] == AltText;
      assert s[|AltText|..] == rest;
    } else {
      assert s == rest;
      if h {
        assert !StartsWith(s, AltText) by { assert s[0] == 'S'; }
      }
    }
  }

  lemma StripCtrl(c: bool, a: bool, h: bool, n: string)
    requires Unambiguous(n)
    ensures var rest := Part(a, AltText) + (Part(h, ShiftText) + n);
      StripPrefix(Part(c, CtrlText) + rest, CtrlText) == (c, rest)
  {
    var rest := Part(a, AltText) + (Part(h, ShiftText) + n);
    var s := Part(c, CtrlText) + rest;
    if c {
      assert s[..|CtrlText|] == CtrlText;
      assert s[|CtrlText|..] == rest;
    } else {
      assert s == rest;
      if a {
        assert !StartsWith(s, CtrlText) by { assert s[0] == 'A'; }
      } else if h {
        assert !StartsWith(s, CtrlText) by { assert s[0] == 'S'; }
      }
    }
  }

  function Flags(c: bool, a: bool, h: bool): set<Modifier> {
    (if c then {Ctrl} else {}) + (if a then {Alt} else {}) + (if h then {Shift} else {})
  }

  /** Reading the three optional parts back in order. */
  lemma ParseParts(c: bool, a: bool, h: bool, n: string)
    requires Unambiguous(n)
    ensures ParseDisplay(Part(c, CtrlText) + (Part(a, AltText) + (Part(h, ShiftText) + n))) == (Flags(c, a, h), n)
  {
    StripCtrl(c, a, h, n);
    StripAlt(a, h, n);
    StripShift(h, n);
  }

  lemma FlagsOf(m: set<Modifier>)
    ensures Flags(Ctrl in m, Alt in m, Shift in m) == m * {Ctrl, Alt, Shift}
  {
  }

  /** Formatting loses only Meta: the display string gives back Ctrl, Alt, Shift and the key name. */
  lemma ParseFormat(ks: KeyStroke, keyText: KeyCode -> string)
    requires Unambiguous(KeyName(ks.code, keyText))
    ensures ParseDisplay(FormatKeyStroke(Some(ks), keyText)) == (ks.modifiers * {Ctrl, Alt, Shift}, KeyName(ks.code, keyText))
  {
    var m := ks.modifiers;
    var n := KeyName(ks.code, keyText);
    var c, a, h := Ctrl in m, Alt in m, Shift in m;
    var pc, pa, ph := Part(c, CtrlText), Part(a, AltText), Part(h, ShiftText);
    assert FormatKeyStroke(Some(ks), keyText) == pc + pa + ph + n;
    Regroup(pc, pa, ph, n);
    ParseParts(c, a, h, n);
    FlagsOf(m);
  }

  /** Two key strokes with unambiguous names get the same display string exactly when they agree on Ctrl, Alt, Shift and the key name. */
  lemma FormatInjective(a: KeyStroke, b: KeyStroke, keyText: KeyCode -> string)
    requires Unambiguous(KeyName(a.code, keyText)) && Unambiguous(KeyName(b.code, keyText))
    ensures FormatKeyStroke(Some(a), keyText) == FormatKeyStroke(Some(b), keyText)
        <==> a.modifiers * {Ctrl, Alt, Shift} == b.modifiers * {Ctrl, Alt, Shift}
             && KeyName(a.code, keyText) == KeyName(b.code, keyText)
  {
    ParseFormat(a, keyText);
    ParseFormat(b, keyText);
    if a.modifiers * {Ctrl, Alt, Shift} == b.modifiers * {Ctrl, Alt, Shift} {
      assert (Ctrl in a.modifiers <==> Ctrl in b.modifiers) && (Alt in a.modifiers <==> Alt in b.modifiers)
          && (Shift in a.modifiers <==> Shift in b.modifiers);
    }
  }

  /** Holding Meta (Cmd) makes no difference to the stored string. */
  lemma FormatIgnoresMeta(mods: set<Modifier>, code: KeyCode, keyText: KeyCode -> string)
    ensures FormatKeyStroke(Some(KeyStroke(mods + {Meta}, code)), keyText)
         == FormatKeyStroke(Some(KeyStroke(mods - {Meta}, code)), keyText)
  {
  }

  // ---- the rewrite in parseShortcut ----

  /** The first three textual replacements of `parseShortcut`: the modifier names. */
  function RewriteModifiers(s: string): string {
    Replace(Replace(Replace(s, CtrlText, "ctrl "), AltText, "alt "), ShiftText, "shift ")
  }

  /** The last three: the key names Swing spells in capitals. */
  function RewriteKeys(s: string): string {
    Replace(Replace(Replace(s, "Plus", "PLUS"), "Minus", "MINUS"), "Space", "SPACE")
  }

  /** The six textual replacements of `parseShortcut`, in their order. */
  function Rewrite(s: string): string {
    RewriteKeys(RewriteModifiers(s))
  }

  /** The rewritten, trimmed string passed to `KeyStroke.getKeyStroke`. */
  function SwingFormat(s: string): string {
    Trim(Rewrite(s))
  }

  /**
   * `parseShortcut`: nothing for a null or empty string; otherwise what
   * Swing's parser makes of the rewritten string, or failing that of its
   * upper-case form. `getKeyStroke` stands for `KeyStroke.getKeyStroke(String)`.
   */
  function ParseShortcut(s: Option<string>, getKeyStroke: string -> Option<KeyStroke>): (r: Option<KeyStroke>)
    ensures (s.None? || s.value == []) ==> r.None?
    ensures s.Some? && s.value != [] && getKeyStroke(SwingFormat(s.value)).Some? ==> r == getKeyStroke(SwingFormat(s.value))
    ensures s.Some? && s.value != [] && getKeyStroke(SwingFormat(s.value)).None? ==> r == getKeyStroke(Upper(SwingFormat(s.value)))
  {
    match s
    case None => None
    case Some(text) =>
      if text == [] then None
      else
        var swing := SwingFormat(text);
        var ks := getKeyStroke(swing);
        if ks.Some? then ks else getKeyStroke(Upper(swing))
  }

  /** Swing's spelling of the modifiers. */
  function SwingModifiers(mods: set<Modifier>): string {
    (if Ctrl in mods then "ctrl " else "")
    + (if Alt in mods then "alt " else "")
    + (if Shift in mods then "shift " else "")
  }

  /** Swing's spelling of a key name. */
  function SwingName(name: string): string {
    if name == "Plus" then "PLUS"
    else if name == "Minus" then "MINUS"
    else if name == "Space" then "SPACE"
    else name
  }

  /** A key text that none of the six replacements touches. */
  predicate PlainName(name: string) {
    && !Contains(name, CtrlText) && !Contains(name, AltText) && !Contains(name, ShiftText)
    && !Contains(name, "Plus") && !Contains(name, "Minus") && !Contains(name, "Space")
  }

  /** A part that is replaced whole or left alone. */
  function Swap(x: string, p: string, q: string): string {
    if x == p then q else x
  }

  /** One part of a string that is either the target itself or free of its first character. */
  lemma ReplacePart(x: string, rest: string, p: string, q: string)
    requires |p| > 0 && (x == p || p[0] !in x)
    ensures Replace(x + rest, p, q) == Swap(x, p, q) + Replace(rest, p, q)
  {
    if x == p {
      ReplaceAtFront(p, rest, q);
    } else {
      ReplaceSkipsFirstChar(x, rest, p, q);
    }
  }

  /** One replacement over three optional modifier parts and a tail. */
  lemma ReplaceParts(a: string, b: string, c: string, tail: string, p: string, q: string)
    requires |p| > 0
    requires a == p || p[0] !in a
    requires b == p || p[0] !in b
    requires c == p || p[0] !in c
    ensures Replace(a + (b + (c + tail)), p, q) == Swap(a, p, q) + (Swap(b, p, q) + (Swap(c, p, q) + Replace(tail, p, q)))
  {
    ReplacePart(c, tail, p, q);
    ReplacePart(b, c + tail, p, q);
    ReplacePart(a, b + (c + tail), p, q);
  }

  lemma Regroup(a: string, b: string, c: string, d: string)
    ensures a + b + c + d == a + (b + (c + d))
  {
  }

  /** The modifier replacements turn the display modifiers into Swing's, whatever follows them. */
  lemma ModifiersRewritten(mods: set<Modifier>, tail: string)
    ensures RewriteModifiers(ModifierPrefix(mods) + tail) == SwingModifiers(mods) + RewriteModifiers(tail)
  {
    var c := if Ctrl in mods then CtrlText else "";
    var a := if Alt in mods then AltText else "";
    var h := if Shift in mods then ShiftText else "";
    var c' := if Ctrl in mods then "ctrl " else "";
    var a' := if Alt in mods then "alt " else "";
    var h' := if Shift in mods then "shift " else "";
    var t1 := Replace(tail, CtrlText, "ctrl ");
    var t2 := Replace(t1, AltText, "alt ");
    Regroup(c, a, h, tail);
    ReplaceParts(c, a, h, tail, CtrlText, "ctrl ");
    ReplaceParts(c', a, h, t1, AltText, "alt ");
    ReplaceParts(c', a', h, t2, ShiftText, "shift ");
    Regroup(c', a', h', RewriteModifiers(tail));
  }

  /** The key-name replacements leave Swing's modifiers alone. */
  lemma KeysRewritten(mods: set<Modifier>, tail: string)
    ensures RewriteKeys(SwingModifiers(mods) + tail) == SwingModifiers(mods) + RewriteKeys(tail)
  {
    var w := SwingModifiers(mods);
    assert 'P' !in w && 'M' !in w && 'S' !in w;
    ReplaceSkipsFirstChar(w, tail, "Plus", "PLUS");
    var t4 := Replace(tail, "Plus", "PLUS");
    ReplaceSkipsFirstChar(w, t4, "Minus", "MINUS");
    ReplaceSkipsFirstChar(w, Replace(t4, "Minus", "MINUS"), "Space", "SPACE");
  }

  /** The rewrite turns the display modifiers into Swing's, whatever follows them. */
  lemma RewritePrefix(mods: set<Modifier>, tail: string)
    ensures Rewrite(ModifierPrefix(mods) + tail) == SwingModifiers(mods) + Rewrite(tail)
  {
    ModifiersRewritten(mods, tail);
    KeysRewritten(mods, RewriteModifiers(tail));
  }

  /** The rewrite of a key name alone: the three fixed names are upper-cased, other plain names are kept. */
  lemma RewriteName(name: string)
    requires PlainName(name) || name == "Plus" || name == "Minus" || name == "Space"
    ensures Rewrite(name) == SwingName(name)
  {
    if PlainName(name) {
      ReplaceNone(name, CtrlText, "ctrl ");
      ReplaceNone(name, AltText, "alt ");
      ReplaceNone(name, ShiftText, "shift ");
      ReplaceNone(name, "Plus", "PLUS");
      ReplaceNone(name, "Minus", "MINUS");
      ReplaceNone(name, "Space", "SPACE");
    } else {
      FixedNameRewrite(name);
    }
  }

  /** The modifier replacements leave the three fixed names alone. */
  lemma FixedNameModifiers(name: string)
    requires name == "Plus" || name == "Minus" || name == "Space"
    ensures RewriteModifiers(name) == name
  {
    ReplaceAbsent(name, CtrlText, "ctrl ");
    ReplaceAbsent(name, AltText, "alt ");
    ReplaceShort(name, ShiftText, "shift ");
  }

  lemma PlusRewrite()
    ensures RewriteKeys("Plus") == "PLUS"
  {
    ReplaceAtFront("Plus", "", "PLUS");
    assert "Plus" + "" == "Plus";
    ReplaceAbsent("PLUS", "Minus", "MINUS");
    ReplaceShort("PLUS", "Space", "SPACE");
  }

  lemma MinusRewrite()
    ensures RewriteKeys("Minus") == "MINUS"
  {
    ReplaceAbsent("Minus", "Plus", "PLUS");
    ReplaceAtFront("Minus", "", "MINUS");
    assert "Minus" + "" == "Minus";
    assert "MINUS"[..5][0] != "Space"[0];
    assert "MINUS"[1..] == "INUS";
    ReplaceShort("INUS", "Space", "SPACE");
  }

  lemma SpaceRewrite()
    ensures RewriteKeys("Space") == "SPACE"
  {
    ReplaceAbsent("Space", "Plus", "PLUS");
    ReplaceAbsent("Space", "Minus", "MINUS");
    ReplaceAtFront("Space", "", "SPACE");
    assert "Space" + "" == "Space";
  }

  lemma FixedNameRewrite(name: string)
    requires name == "Plus" || name == "Minus" || name == "Space"
    ensures Rewrite(name) == SwingName(name)
  {
    FixedNameModifiers(name);
    if name == "Plus" {
      PlusRewrite();
    } else if name == "Minus" {
      MinusRewrite();
    } else {
      SpaceRewrite();
    }
  }

  /**
   * Every shortcut the capture produces, with a plain or fixed key name,
   * reaches Swing's parser in Swing's own syntax, "Ctrl+Shift+N" as "ctrl shift N".
   */
  lemma SwingFormatOfCapture(ks: KeyStroke, keyText: KeyCode -> string)
    requires var n := KeyName(ks.code, keyText);
      n != [] && IsTrimmed(n) && (PlainName(n) || n == "Plus" || n == "Minus" || n == "Space")
    ensures SwingFormat(FormatKeyStroke(Some(ks), keyText))
         == SwingModifiers(ks.modifiers) + SwingName(KeyName(ks.code, keyText))
  {
    var n := KeyName(ks.code, keyText);
    RewritePrefix(ks.modifiers, n);
    RewriteName(n);
    SwingModifiersStart(ks.modifiers);
    SwingNameTrimmed(n);
    TrimmedConcat(SwingModifiers(ks.modifiers), SwingName(n));
    TrimOfTrimmed(SwingModifiers(ks.modifiers) + SwingName(n));
  }

  lemma SwingModifiersStart(mods: set<Modifier>)
    ensures SwingModifiers(mods) == [] || !IsSpace(SwingModifiers(mods)[0])
  {
  }

  lemma SwingNameTrimmed(n: string)
    requires n != [] && IsTrimmed(n)
    ensures SwingName(n) != [] && IsTrimmed(SwingName(n))
  {
  }

  // ---- capturing a key in the shortcut cell ----

  datatype Capture = Ignored | Cancelled | Committed(binding: string)

  /** A key press in the editing cell: modifier keys wait, Escape cancels, any other key commits its display string. */
  function CaptureKey(ks: KeyStroke, keyText: KeyCode -> string): (r: Capture)
    ensures r == Ignored <==> IsModifierKey(ks.code)
    ensures r == Cancelled <==> ks.code == VkEscape
    ensures r.Committed? ==> r.binding == FormatKeyStroke(Some(ks), keyText)
  {
    if IsModifierKey(ks.code) then Ignored
    else if ks.code == VkEscape then Cancelled
    else Committed(FormatKeyStroke(Some(ks), keyText))
  }
}
