/**
 * Fill colours for components in dark mode: a name is hashed with Java's
 * `String.hashCode`, the sign bit is cleared, and the remainder modulo 16
 * picks a palette entry; embedded circuits can instead take the palette
 * entries in turn from a process-wide counter.
 */
module ComponentColors {
  import opened Wrappers
  import opened Rgb
  import opened JavaInt

  const PaletteSize := 16

  const DarkPalette: seq<Color> := [
    Color(155, 89, 182), Color(142, 68, 173), Color(52, 152, 219), Color(41, 128, 185),
    Color(26, 188, 156), Color(22, 160, 133), Color(231, 76, 60), Color(192, 57, 43),
    Color(230, 126, 34), Color(211, 84, 0), Color(46, 204, 113), Color(39, 174, 96),
    Color(52, 73, 94), Color(241, 196, 15), Color(243, 156, 18), Color(127, 140, 141)
  ]

  const EmbeddedPalette: seq<Color> := [
    Color(155, 89, 182), Color(52, 152, 219), Color(26, 188, 156), Color(230, 126, 34),
    Color(231, 76, 60), Color(46, 204, 113), Color(241, 196, 15), Color(52, 73, 94),
    Color(243, 156, 18), Color(41, 128, 185), Color(192, 57, 43), Color(22, 160, 133),
    Color(142, 68, 173), Color(39, 174, 96), Color(211, 84, 0), Color(127, 140, 141)
  ]

  /** Both palettes have sixteen valid colours. */
  lemma PalettesValid()
    ensures |DarkPalette| == PaletteSize && |EmbeddedPalette| == PaletteSize
    ensures forall i :: 0 <= i < PaletteSize ==> Valid(DarkPalette[i]) && Valid(EmbeddedPalette[i])
  {
  }

  /** Where each embedded colour sits in the dark palette. */
  const Reorder: seq<nat> := [0, 2, 4, 8, 6, 10, 13, 12, 14, 3, 7, 5, 1, 11, 9, 15]

  /** The embedded palette is the dark palette reordered: `Reorder` maps one onto the other and hits every position once. */
  lemma SameColours()
    ensures |Reorder| == PaletteSize
    ensures forall i :: 0 <= i < PaletteSize ==> Reorder[i] < PaletteSize && EmbeddedPalette[i] == DarkPalette[Reorder[i]]
    ensures forall i, j :: 0 <= i < j < PaletteSize ==> Reorder[i] != Reorder[j]
  {
    ReorderMapsColours();
    ReorderInverted();
  }

  lemma ReorderMapsColours()
    ensures |Reorder| == PaletteSize
    ensures forall i :: 0 <= i < PaletteSize ==> Reorder[i] < PaletteSize && EmbeddedPalette[i] == DarkPalette[Reorder[i]]
  {
  }

  /** Where each dark colour went in the embedded palette: undoes `Reorder`, so no position is hit twice. */
  lemma ReorderInverted()
    ensures |Reorder| == PaletteSize
    ensures forall i :: 0 <= i < PaletteSize ==> Reorder[i] < PaletteSize && [0, 12, 1, 9, 2, 11, 4, 10, 3, 14, 5, 13, 7, 6, 8, 15][Reorder[i]] == i
  {
  }

  /** `isDarkMode`: the scheme's background is dark when each channel is below 100. */
  predicate IsDarkMode(background: Color) {
    background.red < 100 && background.green < 100 && background.blue < 100
  }

  // ---- hashing a name ----

  /** Java's `String.hashCode`, `h = 31 * h + c` on `int`, over the name from left to right. */
  function HashCode(s: string): (h: int)
    ensures IsInt(h)
    decreases |s|
  {
    if s == [] then 0 else Wrap(31 * HashCode(s[..|s| - 1]) + s[|s| - 1] as int)
  }

  /** The hash polynomial on unbounded integers. */
  function Polynomial(s: string): int
    decreases |s|
  {
    if s == [] then 0 else 31 * Polynomial(s[..|s| - 1]) + s[|s| - 1] as int
  }

  /** Wrapping after every step gives the polynomial reduced to 32 bits once. */
  lemma {:induction false} HashIsPolynomial(s: string)
    ensures HashCode(s) == Wrap(Polynomial(s))
    decreases |s|
  {
    if s != [] {
      var init := s[..|s| - 1];
      HashIsPolynomial(init);
      HashStep(Polynomial(init), s[|s| - 1] as int);
    }
  }

  /** One step of the hash: wrapping the previous value first gives the same `int`. */
  lemma HashStep(p: int, c: int)
    ensures Wrap(31 * Wrap(p) + c) == Wrap(31 * p + c)
  {
    var w := Wrap(p);
    var k := (w - p) / Modulus;
    assert w == p + k * Modulus;
    assert (31 * w + c) - (31 * p + c) == (31 * k) * Modulus;
    WrapCongruent(31 * w + c, 31 * p + c);
  }

  /** `hash & 0x7FFFFFFF`: clearing the sign bit, the non-negative remainder modulo 2^31. */
  function ClearSign(h: int): (r: int)
    requires IsInt(h)
    ensures 0 <= r <= MaxInt
    ensures r == h % 0x8000_0000
  {
    if h < 0 then h + 0x8000_0000 else h
  }

  /** The palette entry a name gets: entry 0 for an empty name. */
  function PaletteIndex(name: string): (i: nat)
    ensures i < PaletteSize
  {
    if name == [] then 0 else Rem(ClearSign(HashCode(name)), PaletteSize)
  }

  /** The index is the 31-bit hash of the name modulo 16; for a non-empty name it depends only on the polynomial modulo 2^31. */
  lemma PaletteIndexOfHash(name: string)
    requires name != []
    ensures PaletteIndex(name) == (Polynomial(name) % 0x8000_0000) % PaletteSize
  {
    HashIsPolynomial(name);
    ClearSignOfWrap(Polynomial(name));
  }

  /** Clearing the sign bit of a wrapped value keeps its low 31 bits. */
  lemma ClearSignOfWrap(p: int)
    ensures ClearSign(Wrap(p)) == p % 0x8000_0000
  {
    var w := Wrap(p);
    var k := (w - p) / Modulus;
    assert w == p + (2 * k) * 0x8000_0000;
  }

  /** `getColorForComponent`: nothing in light mode, otherwise the dark palette entry of the name (a null name as empty). */
  function ColorForComponent(name: Option<string>, background: Color): (r: Option<Color>)
    ensures r.None? <==> !IsDarkMode(background)
    ensures r.Some? ==> r.value in DarkPalette
    ensures r.Some? && (name.None? || name.value == []) ==> r.value == DarkPalette[0]
  {
    if !IsDarkMode(background) then None
    else
      var s := if name.None? then "" else name.value;
      Some(DarkPalette[PaletteIndex(s)])
  }

  /** `getColorForEmbedded`: the same choice from the embedded palette. */
  function ColorForEmbedded(name: Option<string>, background: Color): (r: Option<Color>)
    ensures r.None? <==> !IsDarkMode(background)
    ensures r.Some? ==> r.value in EmbeddedPalette
    ensures r.Some? && (name.None? || name.value == []) ==> r.value == EmbeddedPalette[0]
  {
    if !IsDarkMode(background) then None
    else
      var s := if name.None? then "" else name.value;
      Some(EmbeddedPalette[PaletteIndex(s)])
  }

  /** Both choices use the same index, so a name gets the same position in either palette. */
  lemma SamePosition(name: Option<string>, background: Color)
    requires IsDarkMode(background)
    ensures exists i :: (0 <= i < PaletteSize
      && ColorForComponent(name, background) == Some(DarkPalette[i])
      && ColorForEmbedded(name, background) == Some(EmbeddedPalette[i]))
  {
    var s := if name.None? then "" else name.value;
    var i := PaletteIndex(s);
    assert ColorForComponent(name, background) == Some(DarkPalette[i]);
  }

  // ---- the embedded-colour counter ----

  /** The index `nextEmbeddedColor` computes as written: Java's `%`, negative once the counter has wrapped. */
  function AsWrittenIndex(counter: int): int {
    Rem(counter, PaletteSize)
  }

  /** The index it evidently intends: the counter modulo 16, never negative. */
  function CycleIndex(counter: int): (i: nat)
    ensures i < PaletteSize
  {
    counter % PaletteSize
  }

  /** The counter after `n` calls from the initial 0. */
  function CounterAfter(n: nat): int {
    Wrap(n)
  }

  lemma CounterStep(n: nat)
    ensures Wrap(CounterAfter(n) + 1) == CounterAfter(n + 1)
  {
    WrapCongruent(CounterAfter(n) + 1, n + 1);
  }

  /** Until the counter overflows both indices agree. */
  lemma AsWrittenBeforeOverflow(n: nat)
    requires n <= MaxInt
    ensures AsWrittenIndex(CounterAfter(n)) == CycleIndex(CounterAfter(n))
  {
    WrapOfInt(n);
  }

  /** Call 2^31 + 2 finds the counter at -2^31 + 1, and Java's `%` gives index -15: the array access throws. */
  lemma AsWrittenOverflows()
    ensures CounterAfter(0x8000_0001) == -0x7FFF_FFFF
    ensures AsWrittenIndex(CounterAfter(0x8000_0001)) == -15
  {
  }

  /** Since 16 divides 2^32, the intended index keeps cycling in order through the overflow. */
  lemma CycleAcrossOverflow(n: nat)
    ensures CycleIndex(CounterAfter(n)) == n % PaletteSize
  {
    var w := Wrap(n);
    var k := (w - n) / Modulus;
    assert w - n == k * Modulus;
    assert w == n + (k * 0x1000_0000) * PaletteSize;
    ShiftByCycles(n, k * 0x1000_0000);
  }

  /** Adding whole cycles does not change the index. */
  lemma ShiftByCycles(a: int, j: int)
    ensures (a + j * PaletteSize) % PaletteSize == a % PaletteSize
  {
  }

  /** The index `i` calls after `counter`. */
  lemma CycleShift(counter: int, i: int)
    ensures CycleIndex(counter + i) == (CycleIndex(counter) + i) % PaletteSize
  {
    var d := counter / PaletteSize;
    assert counter == d * PaletteSize + CycleIndex(counter);
    ShiftByCycles(CycleIndex(counter) + i, d);
  }

  /** The colours of `count` consecutive calls starting with the counter at `counter`. */
  function NextColors(counter: int, count: nat): (r: seq<Color>)
    ensures |r| == count
  {
    seq(count, i requires 0 <= i < count => EmbeddedPalette[CycleIndex(counter + i)])
  }

  /** Any sixteen consecutive calls hand out the whole palette, in palette order from where the counter stands. */
  lemma SixteenCalls(counter: int)
    ensures forall i :: 0 <= i < PaletteSize ==>
      NextColors(counter, PaletteSize)[i] == EmbeddedPalette[(CycleIndex(counter) + i) % PaletteSize]
    ensures forall j :: 0 <= j < PaletteSize ==> EmbeddedPalette[j] in NextColors(counter, PaletteSize)
  {
    var r := NextColors(counter, PaletteSize);
    forall i | 0 <= i < PaletteSize ensures r[i] == EmbeddedPalette[(CycleIndex(counter) + i) % PaletteSize] {
      assert r[i] == EmbeddedPalette[CycleIndex(counter + i)];
      CycleShift(counter, i);
    }
    forall j | 0 <= j < PaletteSize ensures EmbeddedPalette[j] in r {
      var i := StepsTo(counter, j);
      assert r[i] == EmbeddedPalette[CycleIndex(counter + i)];
    }
  }

  /** How many calls after `counter` the entry `j` comes up. */
  function StepsTo(counter: int, j: nat): (i: nat)
    requires j < PaletteSize
    ensures i < PaletteSize && CycleIndex(counter + i) == j
  {
    (j - counter) % PaletteSize
  }

  /** The static `embeddedCounter` with `nextEmbeddedColor`, using the intended index. */
  class EmbeddedCounter {
    var counter: int

    ghost predicate Valid()
      reads this
    {
      IsInt(counter)
    }

    constructor()
      ensures Valid() && counter == 0
    {
      counter := 0;
    }

    /** Hands out the palette entry at the counter, then advances the counter with `int` wrap-around. */
    method NextEmbeddedColor() returns (c: Color)
      requires Valid()
      modifies this
      ensures Valid()
      ensures c == EmbeddedPalette[CycleIndex(old(counter))]
      ensures counter == Wrap(old(counter) + 1)
    {
      c := EmbeddedPalette[counter % PaletteSize];
      counter := Wrap(counter + 1);
    }
  }
}
