/**
 * The java.lang.String operations the core relies on, over `string`:
 * trim (drops characters <= U+0020 at both ends), ASCII lower-casing,
 * startsWith, contains, indexOf and replace (left to right, non-overlapping).
 */
module Text {

  /** `String.trim` treats every character up to U+0020 as white space. */
  predicate IsSpace(c: char) {
    c <= ' '
  }

  /** No white space at either end. */
  predicate IsTrimmed(s: string) {
    s == [] || (!IsSpace(s[0]) && !IsSpace(s[|s| - 1]))
  }

  function TrimLeft(s: string): (r: string)
    ensures |r| <= |s|
    ensures r == [] || !IsSpace(r[0])
    ensures forall i :: 0 <= i < |s| - |r| ==> IsSpace(s[i])
  {
    if s != [] && IsSpace(s[0]) then TrimLeft(s[1..]) else s
  }

  function TrimRight(s: string): (r: string)
    ensures |r| <= |s|
    ensures r == [] || !IsSpace(r[|r| - 1])
    ensures forall i :: |r| <= i < |s| ==> IsSpace(s[i])
  {
    if s != [] && IsSpace(s[|s| - 1]) then TrimRight(s[..|s| - 1]) else s
  }

  /** What `TrimLeft` keeps is a suffix of its input. */
  lemma {:induction false} TrimLeftSuffix(s: string)
    ensures TrimLeft(s) == s[|s| - |TrimLeft(s)|..]
  {
    if s != [] && IsSpace(s[0]) {
      TrimLeftSuffix(s[1..]);
      assert s[1..][|s[1..]| - |TrimLeft(s[1..])|..] == s[|s| - |TrimLeft(s)|..];
    }
  }

  /** What `TrimRight` keeps is a prefix of its input. */
  lemma {:induction false} TrimRightPrefix(s: string)
    ensures TrimRight(s) == s[..|TrimRight(s)|]
  {
    if s != [] && IsSpace(s[|s| - 1]) {
      TrimRightPrefix(s[..|s| - 1]);
      assert s[..|s| - 1][..|TrimRight(s)|] == s[..|TrimRight(s)|];
    }
  }

  /** `String.trim`. */
  function Trim(s: string): (r: string)
    ensures IsTrimmed(r)
  {
    TrimRightPrefix(TrimLeft(s));
    TrimRight(TrimLeft(s))
  }

  /**
   * `String.trim` removes exactly the white space at the two ends: what it
   * returns is a slice of the input, and everything before and after that
   * slice is white space.
   */
  lemma TrimDropsOuterSpace(s: string)
    ensures exists a, b ::
              && 0 <= a <= b <= |s| && Trim(s) == s[a..b]
              && (forall i :: 0 <= i < a ==> IsSpace(s[i]))
              && (forall i :: b <= i < |s| ==> IsSpace(s[i]))
  {
    var a := |s| - |TrimLeft(s)|;
    var b := a + |Trim(s)|;
    TrimLeftSuffix(s);
    TrimRightPrefix(TrimLeft(s));
    assert Trim(s) == s[a..b];
    forall i | b <= i < |s|
      ensures IsSpace(s[i])
    {
      assert s[i] == TrimLeft(s)[i - a];
    }
  }

  /** Trimming a string that has no white space at its ends changes nothing. */
  lemma TrimOfTrimmed(s: string)
    requires IsTrimmed(s)
    ensures Trim(s) == s
  {
  }

  /** Text that starts with no white space, followed by non-empty trimmed text, is trimmed. */
  lemma TrimmedConcat(a: string, b: string)
    requires a == [] || !IsSpace(a[0])
    requires b != [] && IsTrimmed(b)
    ensures IsTrimmed(a + b)
  {
    assert (a + b)[|a + b| - 1] == b[|b| - 1];
    if a == [] {
      assert a + b == b;
    } else {
      assert (a + b)[0] == a[0];
    }
  }

  /** Trimming only drops characters. */
  lemma TrimChars(s: string)
    ensures forall c :: c in Trim(s) ==> c in s
  {
    TrimLeftSuffix(s);
    TrimRightPrefix(TrimLeft(s));
    forall c | c in Trim(s) ensures c in s {
      var i :| 0 <= i < |Trim(s)| && Trim(s)[i] == c;
      assert TrimLeft(s)[i] == c;
      assert s[|s| - |TrimLeft(s)| + i] == c;
    }
  }

  /** A string that starts with a non-space character keeps that character first when trimmed. */
  lemma TrimKeepsFirst(s: string)
    requires s != [] && !IsSpace(s[0])
    ensures Trim(s) != [] && Trim(s)[0] == s[0]
  {
    assert TrimLeft(s) == s;
    TrimRightPrefix(s);
  }

  /** ASCII case folding (the model does not follow locale rules). */
  function LowerChar(c: char): char {
    if 'A' <= c <= 'Z' then (c as int + 32) as char else c
  }

  function Lower(s: string): (r: string)
    ensures |r| == |s|
  {
    seq(|s|, i requires 0 <= i < |s| => LowerChar(s[i]))
  }

  function UpperChar(c: char): char {
    if 'a' <= c <= 'z' then (c as int - 32) as char else c
  }

  /** ASCII `toUpperCase`. */
  function Upper(s: string): (r: string)
    ensures |r| == |s|
  {
    seq(|s|, i requires 0 <= i < |s| => UpperChar(s[i]))
  }

  predicate StartsWith(s: string, p: string) {
    |p| <= |s| && s[..|p|] == p
  }

  /** `p` occurs in `s` at index `i`. */
  predicate OccursAt(s: string, p: string, i: nat) {
    i + |p| <= |s| && s[i..i + |p|] == p
  }

  predicate Contains(s: string, p: string) {
    exists i: nat | i <= |s| :: OccursAt(s, p, i)
  }

  lemma StartsWithContains(s: string, p: string)
    requires StartsWith(s, p)
    ensures Contains(s, p)
  {
    assert OccursAt(s, p, 0);
  }

  /** `String.indexOf(char)`: the first index of `c`, or -1. */
  function IndexOf(s: string, c: char): (r: int)
    ensures -1 <= r < |s|
    ensures r == -1 <==> c !in s
    ensures r >= 0 ==> s[r] == c && c !in s[..r]
  {
    if s == [] then -1
    else if s[0] == c then 0
    else var k := IndexOf(s[1..], c); if k == -1 then -1 else k + 1
  }

  /** `String.replace(p, q)` for a non-empty target `p`. */
  function Replace(s: string, p: string, q: string): string
    requires |p| > 0
    decreases |s|
  {
    if |s| < |p| then s
    else if s[..|p|] == p then q + Replace(s[|p|..], p, q)
    else [s[0]] + Replace(s[1..], p, q)
  }

  /** A leading occurrence is replaced and the scan goes on after it. */
  lemma ReplaceAtFront(p: string, s: string, q: string)
    requires |p| > 0
    ensures Replace(p + s, p, q) == q + Replace(s, p, q)
  {
    assert (p + s)[..|p|] == p;
    assert (p + s)[|p|..] == s;
  }

  /** A prefix in which no occurrence of `p` starts is copied unchanged. */
  lemma {:induction false} ReplaceSkips(a: string, b: string, p: string, q: string)
    requires |p| > 0
    requires forall i: nat :: i < |a| ==> !OccursAt(a + b, p, i)
    ensures Replace(a + b, p, q) == a + Replace(b, p, q)
    decreases |a|
  {
    if a == [] {
      assert a + b == b;
    } else {
      var s := a + b;
      if |s| < |p| {
        ReplaceShort(b, p, q);
        assert Replace(s, p, q) == s;
      } else {
        assert !OccursAt(s, p, 0);
        assert s[..|p|] != p;
        assert s[1..] == a[1..] + b;
        NoOccurrenceInTail(a, b, p);
        ReplaceSkips(a[1..], b, p, q);
        calc {
          Replace(s, p, q);
          [s[0]] + Replace(s[1..], p, q);
          [a[0]] + (a[1..] + Replace(b, p, q));
          { assert [a[0]] + a[1..] == a; }
          a + Replace(b, p, q);
        }
      }
    }
  }

  lemma ReplaceShort(s: string, p: string, q: string)
    requires |p| > 0 && |s| < |p|
    ensures Replace(s, p, q) == s
  {
  }

  /** A prefix that does not contain the first character of `p` is copied unchanged. */
  /** No occurrence starts in `a` after its first character, read in the tail. */
  lemma NoOccurrenceInTail(a: string, b: string, p: string)
    requires a != []
    requires forall i: nat :: i < |a| ==> !OccursAt(a + b, p, i)
    ensures forall i: nat :: i < |a[1..]| ==> !OccursAt(a[1..] + b, p, i)
  {
    var s := a + b;
    forall i: nat | i < |a[1..]| ensures !OccursAt(a[1..] + b, p, i) {
      assert !OccursAt(s, p, i + 1);
      if i + |p| <= |a[1..] + b| {
        assert (a[1..] + b)[i..i + |p|] == s[i + 1..i + 1 + |p|];
      }
    }
  }

  lemma ReplaceSkipsFirstChar(a: string, b: string, p: string, q: string)
    requires |p| > 0
    requires p[0] !in a
    ensures Replace(a + b, p, q) == a + Replace(b, p, q)
  {
    forall i: nat | i < |a| ensures !OccursAt(a + b, p, i) {
      if i + |p| <= |a + b| {
        assert (a + b)[i..i + |p|][0] == a[i];
      }
    }
    ReplaceSkips(a, b, p, q);
  }

  /** A string in which `p` does not occur is left as it is. */
  lemma ReplaceNone(s: string, p: string, q: string)
    requires |p| > 0
    requires !Contains(s, p)
    ensures Replace(s, p, q) == s
  {
    assert s + [] == s;
    ReplaceSkips(s, [], p, q);
    ReplaceShort([], p, q);
  }

  /** A string without the first character of `p` is left as it is. */
  lemma ReplaceAbsent(s: string, p: string, q: string)
    requires |p| > 0
    requires p[0] !in s
    ensures Replace(s, p, q) == s
  {
    ReplaceSkipsFirstChar(s, [], p, q);
    assert s + [] == s;
    ReplaceShort([], p, q);
  }
}
