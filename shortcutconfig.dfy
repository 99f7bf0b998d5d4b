/**
 * The custom-shortcut file `.digital-shortcuts.cfg` in the user's home
 * directory: three comment lines, then one `actionId=Shortcut` line per
 * custom binding. Reading trims each line, skips blank and `#` lines and
 * splits at the first `=`; later lines for the same id overwrite earlier ones.
 */
module ShortcutConfig {
  import opened Wrappers
  import opened Text
  import opened LinkedMap

  const FileName := ".digital-shortcuts.cfg"

  /** Lines starting with this are comments. */
  const CommentMark := "#"
  const Title := CommentMark + " Digital Simulator - Custom Keyboard Shortcuts"
  const FormatNote := CommentMark + " Format: actionId=Shortcut"
  const RestartNote := CommentMark + " Restart application after changes"
  /** The three comment lines written at the top of the file. */
  const Header: seq<string> := [Title, FormatNote, RestartNote]

  /** A key the reader can produce: non-empty, trimmed, without `=`, not starting with `#`. */
  predicate WellFormedKey(k: string) {
    k != [] && IsTrimmed(k) && '=' !in k && k[0] != '#'
  }

  predicate WellFormedBinding(b: Binding) {
    WellFormedKey(b.key) && IsTrimmed(b.value)
  }

  /** A binding list that writing and reading again reproduces. */
  predicate WellFormed(m: Bindings) {
    UniqueKeys(m) && forall i :: 0 <= i < |m| ==> WellFormedBinding(m[i])
  }

  /** One line of the file: a binding, or nothing for blank, comment and `=`-less lines and for an empty key. */
  function ParseLine(line: string): (r: Option<Binding>)
    ensures r.Some? ==> WellFormedBinding(r.value)
  {
    var t := Trim(line);
    if |t| == 0 || StartsWith(t, CommentMark) then None
    else
      var eq := IndexOf(t, '=');
      if eq > 0 then
        TrimKeepsFirst(t[..eq]);
        TrimChars(t[..eq]);
        Some(Binding(Trim(t[..eq]), Trim(t[eq + 1..])))
      else None
  }

  /** Applies a parsed line: `put` for a binding, nothing otherwise. */
  function Apply(m: Bindings, line: string): Bindings {
    match ParseLine(line)
    case None => m
    case Some(b) => Put(m, b.key, b.value)
  }

  /** Reads the lines in order into `m`. */
  function ParseLines(m: Bindings, lines: seq<string>): Bindings
    decreases |lines|
  {
    if lines == [] then m else ParseLines(Apply(m, lines[0]), lines[1..])
  }

  /** One written line. */
  function RenderLine(b: Binding): string {
    b.key + "=" + b.value
  }

  function RenderLines(m: Bindings): (r: seq<string>)
    ensures |r| == |m|
  {
    if m == [] then [] else [RenderLine(m[0])] + RenderLines(m[1..])
  }

  /** The whole file as written by a save. */
  function Render(m: Bindings): seq<string> {
    Header + RenderLines(m)
  }

  // ---- reading keeps the map well formed ----

  /** Putting a readable binding keeps the map well formed. */
  lemma PutWellFormed(m: Bindings, b: Binding)
    requires WellFormed(m) && WellFormedBinding(b)
    ensures WellFormed(Put(m, b.key, b.value))
  {
    PutUnique(m, b.key, b.value);
    PutBindings(m, b.key, b.value);
    var m' := Put(m, b.key, b.value);
    forall i | 0 <= i < |m'| ensures WellFormedBinding(m'[i]) {
      assert m'[i] in m';
    }
  }

  /** Applying one line keeps the map well formed. */
  lemma ApplyWellFormed(m: Bindings, line: string)
    requires WellFormed(m)
    ensures WellFormed(Apply(m, line))
  {
    var r := ParseLine(line);
    if r.Some? {
      PutWellFormed(m, r.value);
    }
  }

  lemma {:induction false} ParseLinesWellFormed(m: Bindings, lines: seq<string>)
    requires WellFormed(m)
    ensures WellFormed(ParseLines(m, lines))
    decreases |lines|
  {
    if lines != [] {
      ApplyWellFormed(m, lines[0]);
      ParseLinesWellFormed(Apply(m, lines[0]), lines[1..]);
    }
  }

  // ---- writing then reading gives the map back ----

  /** One line more of the read loop: apply it, then read the rest. */
  lemma LoadStep(m: Bindings, lines: seq<string>, i: nat)
    requires i < |lines| && WellFormed(m)
    ensures ParseLines(m, lines[i..]) == ParseLines(Apply(m, lines[i]), lines[i + 1..])
    ensures WellFormed(Apply(m, lines[i]))
  {
    assert lines[i..] == [lines[i]] + lines[i + 1..];
    ParseLinesCons(m, lines[i], lines[i + 1..]);
    ApplyWellFormed(m, lines[i]);
  }

  /** A comment line is skipped. */
  lemma CommentSkipped(line: string)
    requires StartsWith(line, CommentMark)
    ensures ParseLine(line) == None
  {
    assert line[0] == '#';
    TrimKeepsFirst(line);
    TrimOfTrimmed(line[..0]);
  }

  /**
   * Which lines the reader skips: after trimming, a blank line, a comment, a
   * line without `=` and a line whose `=` comes first.
   */
  lemma ParseLineSkips(line: string)
    ensures var t := Trim(line);
      ParseLine(line).None? <==> (t == [] || t[0] == '#' || '=' !in t || t[0] == '=')
  {
    var t := Trim(line);
    if t != [] {
      assert StartsWith(t, CommentMark) <==> t[0] == '#';
    }
  }

  /** Where a read line splits: at its first `=`, each side trimmed. */
  lemma ParseLineSplits(line: string)
    requires ParseLine(line).Some?
    ensures var t, b := Trim(line), ParseLine(line).value;
      exists e ::
        && 0 < e < |t| && t[e] == '=' && '=' !in t[..e]
        && b.key == Trim(t[..e]) && b.value == Trim(t[e + 1..])
  {
    var t := Trim(line);
    var e := ParsedAt(line);
    assert 0 < e < |t| && t[e] == '=' && '=' !in t[..e];
  }

  /** The index a parsed line splits at. */
  lemma ParsedAt(line: string) returns (e: int)
    requires ParseLine(line).Some?
    ensures var t := Trim(line);
      && e == IndexOf(t, '=') && 0 < e < |t|
      && ParseLine(line).value == Binding(Trim(t[..e]), Trim(t[e + 1..]))
  {
    e := IndexOf(Trim(line), '=');
  }

  /** Reading a line, then the rest. */
  lemma ParseLinesCons(m: Bindings, line: string, rest: seq<string>)
    ensures ParseLines(m, [line] + rest) == ParseLines(Apply(m, line), rest)
  {
    assert ([line] + rest)[0] == line && ([line] + rest)[1..] == rest;
  }

  /** Every header line is a comment. */
  lemma HeaderIsComments()
    ensures forall h :: h in Header ==> StartsWith(h, CommentMark)
  {
    assert Title[..1] == FormatNote[..1] == RestartNote[..1] == CommentMark;
  }

  /** Comment lines change nothing. */
  lemma {:induction false} CommentsSkipped(m: Bindings, comments: seq<string>, rest: seq<string>)
    requires forall h :: h in comments ==> StartsWith(h, CommentMark)
    ensures ParseLines(m, comments + rest) == ParseLines(m, rest)
    decreases |comments|
  {
    if comments != [] {
      CommentSkipped(comments[0]);
      assert comments + rest == [comments[0]] + (comments[1..] + rest);
      ParseLinesCons(m, comments[0], comments[1..] + rest);
      CommentsSkipped(m, comments[1..], rest);
    } else {
      assert comments + rest == rest;
    }
  }

  /** The first `=` of a written line is the one after the key. */
  lemma IndexOfSeparator(k: string, v: string)
    requires '=' !in k
    ensures IndexOf(k + "=" + v, '=') == |k|
  {
    var s := k + "=" + v;
    assert s[..|k|] == k;
    assert s[|k|] == '=';
  }

  /** A well-formed binding survives a write and a read. */
  lemma ParseRenderLine(b: Binding)
    requires WellFormedBinding(b)
    ensures ParseLine(RenderLine(b)) == Some(b)
  {
    var line := RenderLine(b);
    RenderLineShape(b.key, b.value);
    TrimOfTrimmed(line);
    IndexOfSeparator(b.key, b.value);
    TrimOfTrimmed(b.key);
    TrimOfTrimmed(b.value);
  }

  /** A written line is trimmed, starts with the key, and holds the key before the `=` and the value after it. */
  lemma RenderLineShape(k: string, v: string)
    requires WellFormedKey(k) && IsTrimmed(v)
    ensures var line := k + "=" + v;
      IsTrimmed(line) && line != [] && line[0] == k[0]
      && line[..|k|] == k && line[|k| + 1..] == v
  {
    var line := k + "=" + v;
    assert line[0] == k[0];
    assert line[|line| - 1] == if v == [] then '=' else v[|v| - 1];
    assert line[..|k|] == k;
    assert line[|k| + 1..] == v;
  }

  lemma ApplyNewLine(acc: Bindings, b: Binding)
    requires WellFormedBinding(b) && !HasKey(acc, b.key)
    ensures Apply(acc, RenderLine(b)) == acc + [b]
  {
    ParseRenderLine(b);
  }

  lemma FreshKey(acc: Bindings, m: Bindings)
    requires UniqueKeys(acc + m) && m != []
    ensures !HasKey(acc, m[0].key)
  {
    forall i | 0 <= i < |acc| ensures Keys(acc)[i] != m[0].key {
      assert (acc + m)[i] == acc[i] && (acc + m)[|acc|] == m[0];
    }
  }

  /** One written line read into a map that lacks its key appends the binding. */
  lemma RenderStep(acc: Bindings, m: Bindings)
    requires UniqueKeys(acc + m) && m != [] && WellFormedBinding(m[0])
    ensures ParseLines(acc, RenderLines(m)) == ParseLines(acc + [m[0]], RenderLines(m[1..]))
  {
    FreshKey(acc, m);
    ApplyNewLine(acc, m[0]);
    assert RenderLines(m) == [RenderLine(m[0])] + RenderLines(m[1..]);
    ParseLinesCons(acc, RenderLine(m[0]), RenderLines(m[1..]));
  }

  /** Reading written lines into a map disjoint from them appends them in order. */
  lemma {:induction false} ParseRenderLines(acc: Bindings, m: Bindings)
    requires UniqueKeys(acc + m)
    requires forall i :: 0 <= i < |m| ==> WellFormedBinding(m[i])
    ensures ParseLines(acc, RenderLines(m)) == acc + m
    decreases |m|
  {
    if m == [] {
      assert acc + m == acc;
    } else {
      var acc', rest := acc + [m[0]], m[1..];
      assert acc' + rest == acc + m;
      assert forall i :: 0 <= i < |rest| ==> WellFormedBinding(rest[i]) by {
        forall i | 0 <= i < |rest| ensures WellFormedBinding(rest[i]) {
          assert rest[i] == m[i + 1];
        }
      }
      ParseRenderLines(acc', rest);
      RenderStep(acc, m);
    }
  }

  /** Saving then loading reproduces every well-formed set of bindings, order included, the file being its sequence of lines. */
  lemma RoundTrip(m: Bindings)
    requires WellFormed(m)
    ensures ParseLines([], Render(m)) == m
  {
    HeaderIsComments();
    CommentsSkipped([], Header, RenderLines(m));
    assert [] + m == m;
    ParseRenderLines([], m);
  }

  /** Whatever a file holds, writing what was read and reading again gives the same bindings. */
  lemma ReadWriteRead(lines: seq<string>)
    ensures ParseLines([], Render(ParseLines([], lines))) == ParseLines([], lines)
  {
    ParseLinesWellFormed([], lines);
    RoundTrip(ParseLines([], lines));
  }
}
