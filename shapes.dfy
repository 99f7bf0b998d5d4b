/**
 * The pin layout of the generic box shape: inputs down the left edge,
 * outputs down the right edge, all on a raster of `Size` units, with a
 * single output centred against the inputs and a gap in the middle of an
 * even number of inputs so that the output does not meet an input.
 */
module Shapes {
  import opened Wrappers
  import opened Rgb
  import ComponentColors

  /** Half the raster. */
  const Size2 := 10
  /** The raster. */
  const Size := Size2 * 2

  datatype Direction = Input | Output

  /** A pin: its position relative to the shape and the description it belongs to, named by its pin name. */
  datatype Pin = Pin(x: int, y: int, name: string, direction: Direction)

  /** `isInverted`: the configuration is there and names the input. */
  function IsInverted(name: string, ic: Option<set<string>>): bool {
    ic.Some? && name in ic.value
  }

  /** Where a symmetric shape puts its outputs: half the inputs further down, rounded down. */
  function Offset(inputCount: nat, symmetric: bool): int {
    if symmetric then inputCount / 2 * Size else 0
  }

  /** The vertical shift of the lower half of an even number of inputs in a symmetric shape. */
  function Correction(inputCount: nat, i: nat, symmetric: bool): int {
    if symmetric && inputCount % 2 == 0 && i >= inputCount / 2 then Size else 0
  }

  /** The x of the outputs: the right edge, one raster further right when the output is inverted. */
  function OutputX(invert: bool, width: int): int {
    if invert then Size * (width + 1) else Size * width
  }

  function InputPin(inputs: seq<string>, i: nat, symmetric: bool, ic: Option<set<string>>): Pin
    requires i < |inputs|
  {
    Pin(if IsInverted(inputs[i], ic) then -Size else 0, i * Size + Correction(|inputs|, i, symmetric), inputs[i], Input)
  }

  function OutputPin(outputs: seq<string>, j: nat, x: int, offs: int): Pin
    requires j < |outputs|
  {
    Pin(x, j * Size + offs, outputs[j], Output)
  }

  /** The input pins down the left edge, in order. */
  function InputPins(inputs: seq<string>, symmetric: bool, ic: Option<set<string>>): (r: seq<Pin>)
    ensures |r| == |inputs| && forall i :: 0 <= i < |inputs| ==> r[i] == InputPin(inputs, i, symmetric, ic)
  {
    seq(|inputs|, i requires 0 <= i < |inputs| => InputPin(inputs, i, symmetric, ic))
  }

  /** The output pins at `x`, shifted down by `offs`, in order. */
  function OutputPins(outputs: seq<string>, x: int, offs: int): (r: seq<Pin>)
    ensures |r| == |outputs| && forall j :: 0 <= j < |outputs| ==> r[j] == OutputPin(outputs, j, x, offs)
  {
    seq(|outputs|, j requires 0 <= j < |outputs| => OutputPin(outputs, j, x, offs))
  }

  /** The pins `createPins` builds: every input in order, then every output in order. */
  function PinLayout(inputs: seq<string>, outputs: seq<string>, invert: bool, width: int, symmetric: bool, ic: Option<set<string>>): (r: seq<Pin>)
    ensures |r| == |inputs| + |outputs|
    ensures forall i :: 0 <= i < |inputs| ==> r[i] == InputPin(inputs, i, symmetric, ic)
    ensures forall j :: 0 <= j < |outputs| ==> r[|inputs| + j] == OutputPin(outputs, j, OutputX(invert, width), Offset(|inputs|, symmetric))
  {
    InputPins(inputs, symmetric, ic) + OutputPins(outputs, OutputX(invert, width), Offset(|inputs|, symmetric))
  }

  /**
   * An input pin sits one raster left of the shape exactly when the inverter
   * configuration names it, and on the left edge otherwise.
   */
  lemma InvertedInputsMoved(inputs: seq<string>, outputs: seq<string>, invert: bool, width: int, symmetric: bool, ic: Option<set<string>>)
    ensures var r := PinLayout(inputs, outputs, invert, width, symmetric, ic);
      forall i :: 0 <= i < |inputs| ==>
        && (r[i].x == -Size <==> (ic.Some? && inputs[i] in ic.value))
        && (r[i].x == 0 <==> !(ic.Some? && inputs[i] in ic.value))
  {
  }

  /** An empty inverter configuration lays out the pins as no configuration does. */
  lemma EmptyConfigIsNone(inputs: seq<string>, outputs: seq<string>, invert: bool, width: int, symmetric: bool)
    ensures PinLayout(inputs, outputs, invert, width, symmetric, Some({})) == PinLayout(inputs, outputs, invert, width, symmetric, None)
  {
    assert InputPins(inputs, symmetric, Some({})) == InputPins(inputs, symmetric, None);
  }

  /** The private `createPins`: the pins built in loops, as the layout says. */
  method BuildPins(inputs: seq<string>, outputs: seq<string>, invert: bool, width: int, symmetric: bool, ic: Option<set<string>>)
    returns (pins: seq<Pin>)
    ensures pins == PinLayout(inputs, outputs, invert, width, symmetric, ic)
  {
    var n := |inputs|;
    var offs := if symmetric then n / 2 * Size else 0;
    var ins := [];
    var i := 0;
    while i < n
      invariant 0 <= i <= n && |ins| == i
      invariant forall k :: 0 <= k < i ==> ins[k] == InputPin(inputs, k, symmetric, ic)
    {
      var correct := 0;
      if symmetric && n % 2 == 0 && i >= n / 2 {
        correct := Size;
      }
      var dx := 0;
      if IsInverted(inputs[i], ic) {
        dx := -Size;
      }
      var p := Pin(dx, i * Size + correct, inputs[i], Input);
      assert p == InputPin(inputs, i, symmetric, ic);
      ins := ins + [p];
      i := i + 1;
    }
    var x := if invert then Size * (width + 1) else Size * width;
    assert x == OutputX(invert, width) && offs == Offset(n, symmetric);
    var outs := [];
    var j := 0;
    while j < |outputs|
      invariant 0 <= j <= |outputs| && |outs| == j
      invariant forall k :: 0 <= k < j ==> outs[k] == OutputPin(outputs, k, x, offs)
    {
      var p := Pin(x, j * Size + offs, outputs[j], Output);
      outs := outs + [p];
      j := j + 1;
    }
    assert ins == InputPins(inputs, symmetric, ic);
    assert outs == OutputPins(outputs, x, offs);
    pins := ins + outs;
  }

  /** The public `createPins`: always symmetric, four rasters wide for a wide shape and three otherwise. */
  method CreatePins(inputs: seq<string>, outputs: seq<string>, invert: bool, ic: Option<set<string>>, wideShape: bool)
    returns (pins: seq<Pin>)
    ensures pins == PinLayout(inputs, outputs, invert, if wideShape then 4 else 3, true, ic)
  {
    pins := BuildPins(inputs, outputs, invert, if wideShape then 4 else 3, true, ic);
  }

  // ---- what the layout guarantees ----

  lemma InputOnRaster(inputs: seq<string>, i: nat, symmetric: bool, ic: Option<set<string>>)
    requires i < |inputs|
    ensures InputPin(inputs, i, symmetric, ic).x % Size == 0 && InputPin(inputs, i, symmetric, ic).y % Size == 0
  {
    var m := if Correction(|inputs|, i, symmetric) == 0 then i else i + 1;
    assert InputPin(inputs, i, symmetric, ic).y == m * Size;
  }

  lemma OutputOnRaster(outputs: seq<string>, j: nat, invert: bool, width: int, inputCount: nat, symmetric: bool)
    requires j < |outputs|
    ensures var q := OutputPin(outputs, j, OutputX(invert, width), Offset(inputCount, symmetric));
      q.x % Size == 0 && q.y % Size == 0
  {
    var m := if symmetric then j + inputCount / 2 else j;
    var w := if invert then width + 1 else width;
    assert OutputPin(outputs, j, OutputX(invert, width), Offset(inputCount, symmetric)).y == m * Size;
    assert OutputX(invert, width) == w * Size;
  }

  /** Every pin lies on the raster. */
  lemma {:induction false} PinsOnRaster(inputs: seq<string>, outputs: seq<string>, invert: bool, width: int, symmetric: bool, ic: Option<set<string>>)
    ensures forall p :: p in PinLayout(inputs, outputs, invert, width, symmetric, ic) ==> p.x % Size == 0 && p.y % Size == 0
  {
    var layout := PinLayout(inputs, outputs, invert, width, symmetric, ic);
    forall k | 0 <= k < |layout| ensures layout[k].x % Size == 0 && layout[k].y % Size == 0 {
      if k < |inputs| {
        InputOnRaster(inputs, k, symmetric, ic);
      } else {
        OutputOnRaster(outputs, k - |inputs|, invert, width, |inputs|, symmetric);
      }
    }
  }

  /** Inputs go down the left edge in order, one raster apart, two at the middle of an even symmetric column. */
  lemma InputsDescend(inputs: seq<string>, symmetric: bool, ic: Option<set<string>>, i: nat)
    requires i + 1 < |inputs|
    ensures var gap := InputPin(inputs, i + 1, symmetric, ic).y - InputPin(inputs, i, symmetric, ic).y;
      gap == if symmetric && |inputs| % 2 == 0 && i + 1 == |inputs| / 2 then 2 * Size else Size
  {
  }

  /** Input pins are strictly ordered from top to bottom, so no two share a position. */
  lemma {:induction false} InputsOrdered(inputs: seq<string>, symmetric: bool, ic: Option<set<string>>, i: nat, j: nat)
    requires i < j < |inputs|
    ensures InputPin(inputs, i, symmetric, ic).y + (j - i) * Size <= InputPin(inputs, j, symmetric, ic).y
    decreases j - i
  {
    InputsDescend(inputs, symmetric, ic, j - 1);
    if i < j - 1 {
      InputsOrdered(inputs, symmetric, ic, i, j - 1);
    }
  }

  /** Outputs go down the right edge one raster apart per position, right of every input, in a shape at least one raster wide. */
  lemma OutputsRightOfInputs(inputs: seq<string>, outputs: seq<string>, invert: bool, width: int, symmetric: bool, ic: Option<set<string>>)
    requires width >= 1
    ensures var r := PinLayout(inputs, outputs, invert, width, symmetric, ic);
      (forall k, m :: 0 <= k < |inputs| <= m < |r| ==> r[k].x < r[m].x)
      && (forall m, m' :: |inputs| <= m <= m' < |r| ==> r[m'].y - r[m].y == (m' - m) * Size)
  {
    var r := PinLayout(inputs, outputs, invert, width, symmetric, ic);
    var n := |inputs|;
    var x, offs := OutputX(invert, width), Offset(n, symmetric);
    var ins, outs := InputPins(inputs, symmetric, ic), OutputPins(outputs, x, offs);
    assert r == ins + outs;
    forall m | n <= m < |r| ensures r[m].x == x && r[m].y == (m - n) * Size + offs {
      assert r[m] == outs[m - n];
    }
    forall k | 0 <= k < n ensures r[k].x <= 0 {
      assert r[k] == ins[k];
    }
  }

  /**
   * A single output of a symmetric shape faces the middle input when the
   * input count is odd, and sits in the gap between the two middle inputs,
   * one raster from each, when it is even and not zero.
   */
  lemma SingleOutputCentred(inputs: seq<string>, output: string, invert: bool, width: int, ic: Option<set<string>>)
    requires |inputs| > 0
    ensures var r := PinLayout(inputs, [output], invert, width, true, ic);
      var n := |inputs|;
      (n % 2 == 1 ==> r[n].y == r[n / 2].y)
      && (n % 2 == 0 ==> r[n].y == r[n / 2 - 1].y + Size && r[n].y == r[n / 2].y - Size)
  {
  }

  /** In a symmetric shape with an even input count, no input is level with the output. */
  lemma {:induction false} EvenInputsMissOutput(inputs: seq<string>, output: string, invert: bool, width: int, ic: Option<set<string>>)
    requires |inputs| % 2 == 0
    ensures var r := PinLayout(inputs, [output], invert, width, true, ic);
      forall i :: 0 <= i < |inputs| ==> r[i].y != r[|inputs|].y
  {
    var n := |inputs|;
    var r := PinLayout(inputs, [output], invert, width, true, ic);
    forall i | 0 <= i < n ensures r[i].y != r[n].y {
      assert r[n].y == n / 2 * Size;
      if i < n / 2 {
        assert r[i].y == i * Size;
      } else {
        assert r[i].y == (i + 1) * Size;
      }
    }
  }

  /** `yBottom` in `drawTo`: the lowest row of pins plus the border, one raster more for the gap of an even symmetric column. */
  function YBottom(inputCount: nat, outputCount: nat, symmetric: bool, border: int): int {
    var max := if inputCount > outputCount then inputCount else outputCount;
    var y := (max - 1) * Size + border;
    if symmetric && inputCount > 0 && inputCount % 2 == 0 then y + Size else y
  }

  /** The four corners of the box, clockwise from the top left. */
  function BoxCorners(width: int, border: int, yBottom: int): (r: seq<(int, int)>)
    ensures |r| == 4 && r[0].1 == r[1].1 && r[1].0 == r[2].0 && r[2].1 == r[3].1 && r[3].0 == r[0].0
  {
    [(1, -border), (Size * width - 1, -border), (Size * width - 1, yBottom), (1, yBottom)]
  }

  lemma InputsInBox(inputs: seq<string>, nOut: nat, symmetric: bool, ic: Option<set<string>>, border: int, i: nat)
    requires border >= 0 && i < |inputs|
    ensures -border <= InputPin(inputs, i, symmetric, ic).y <= YBottom(|inputs|, nOut, symmetric, border)
  {
  }

  lemma OutputInBox(inputs: seq<string>, outputs: seq<string>, j: nat, x: int, border: int)
    requires border >= 0 && j < |outputs|
    ensures var symmetric := |outputs| == 1;
      -border <= OutputPin(outputs, j, x, Offset(|inputs|, symmetric)).y <= YBottom(|inputs|, |outputs|, symmetric, border)
  {
    var n := |inputs|;
    if |outputs| == 1 {
      assert j == 0;
      if n % 2 == 1 {
        assert n / 2 <= n - 1;
      } else if n > 0 {
        assert n / 2 <= n;
      }
    }
  }

  /**
   * With a non-negative border, every pin of a shape whose symmetry follows
   * its output count, as the constructor sets it, lies between the top and
   * the bottom edge of the box `drawTo` draws.
   */
  lemma {:induction false} PinsInsideBox(inputs: seq<string>, outputs: seq<string>, invert: bool, width: int, ic: Option<set<string>>, border: int)
    requires border >= 0
    ensures var symmetric := |outputs| == 1;
      forall p :: p in PinLayout(inputs, outputs, invert, width, symmetric, ic) ==>
        -border <= p.y <= YBottom(|inputs|, |outputs|, symmetric, border)
  {
    var symmetric := |outputs| == 1;
    var layout := PinLayout(inputs, outputs, invert, width, symmetric, ic);
    forall k | 0 <= k < |layout| ensures -border <= layout[k].y <= YBottom(|inputs|, |outputs|, symmetric, border) {
      if k < |inputs| {
        InputsInBox(inputs, |outputs|, symmetric, ic, border, k);
      } else {
        OutputInBox(inputs, outputs, k - |inputs|, OutputX(invert, width), border);
      }
    }
  }

  /** The box width when none is given: one raster for one input, one output and no pin labels, three otherwise. */
  function DefaultWidth(inputCount: nat, outputCount: nat, showPinLabels: bool): (w: int)
    ensures w == 1 <==> inputCount == 1 && outputCount == 1 && !showPinLabels
    ensures w == 1 || w == 3
  {
    if inputCount == 1 && outputCount == 1 && !showPinLabels then 1 else 3
  }

  /** An empty label counts as none. */
  function NormalLabel(labelText: Option<string>): (r: Option<string>)
    ensures r.None? <==> labelText.None? || labelText.value == []
    ensures r.Some? ==> r == labelText
  {
    if labelText.Some? && labelText.value == [] then None else labelText
  }

  /**
   * The fill colour `drawTo` uses: an explicit colour as it is; for white,
   * the component's dark-mode colour, or the scheme's fill outside dark mode.
   * `background` is the selected scheme's background colour.
   */
  function FillColor(color: Color, name: string, background: Color, schemeFill: Color): (r: Color)
    ensures color != White ==> r == color
    ensures color == White && ComponentColors.IsDarkMode(background) ==> r in ComponentColors.DarkPalette
    ensures color == White && !ComponentColors.IsDarkMode(background) ==> r == schemeFill
  {
    if color != White then color
    else
      var auto := ComponentColors.ColorForComponent(Some(name), background);
      if auto.Some? then auto.value else schemeFill
  }

  /** The box is filled unless its fill colour is the scheme's background. */
  function Fill(fillColor: Color, schemeBackground: Color): (r: Option<Color>)
    ensures r.None? <==> fillColor == schemeBackground
    ensures r.Some? ==> r.value == fillColor
  {
    if fillColor == schemeBackground then None else Some(fillColor)
  }

  /**
   * The fill `drawTo` paints: the fill colour is resolved against the
   * scheme's background, and the same background decides whether to fill.
   */
  function BoxFill(color: Color, name: string, background: Color, schemeFill: Color): (r: Option<Color>)
    ensures color != White ==> (r.None? <==> color == background) && (r.Some? ==> r.value == color)
    ensures color == White && !ComponentColors.IsDarkMode(background) ==> (r.None? <==> schemeFill == background)
    ensures color == White && ComponentColors.IsDarkMode(background) && background !in ComponentColors.DarkPalette
      ==> r.Some? && r.value in ComponentColors.DarkPalette
  {
    Fill(FillColor(color, name, background, schemeFill), background)
  }

  /** A generic shape: the state its chained setters change and the pins it caches. */
  class GenericShape {
    const name: string
    const inputs: seq<string>
    const outputs: seq<string>
    const labelText: Option<string>
    const showPinLabels: bool
    const symmetric: bool
    var width: int
    var invert: bool
    var color: Color
    var pins: Option<seq<Pin>>
    var inverterConfig: Option<set<string>>
    var topBottomBorder: int

    /** The constructor with a width; `format` is the identity here. */
    constructor(name: string, inputs: seq<string>, outputs: seq<string>, labelText: Option<string>, showPinLabels: bool, width: int)
      ensures this.name == name && this.inputs == inputs && this.outputs == outputs
      ensures this.labelText == NormalLabel(labelText) && this.showPinLabels == showPinLabels && this.width == width
      ensures symmetric <==> |outputs| == 1
      ensures !invert && color == White && pins.None? && inverterConfig.None? && topBottomBorder == Size2
    {
      this.name := name;
      this.inputs := inputs;
      this.outputs := outputs;
      this.labelText := if labelText.Some? && labelText.value == [] then None else labelText;
      this.showPinLabels := showPinLabels;
      this.width := width;
      symmetric := |outputs| == 1;
      invert := false;
      color := White;
      pins := None;
      inverterConfig := None;
      topBottomBorder := Size2;
    }

    /** The constructor that picks the default width. */
    constructor WithDefaultWidth(name: string, inputs: seq<string>, outputs: seq<string>, labelText: Option<string>, showPinLabels: bool)
      ensures this.name == name && this.inputs == inputs && this.outputs == outputs
      ensures this.labelText == NormalLabel(labelText) && this.showPinLabels == showPinLabels
      ensures width == DefaultWidth(|inputs|, |outputs|, showPinLabels)
      ensures symmetric <==> |outputs| == 1
      ensures !invert && color == White && pins.None? && inverterConfig.None? && topBottomBorder == Size2
    {
      this.name := name;
      this.inputs := inputs;
      this.outputs := outputs;
      this.labelText := if labelText.Some? && labelText.value == [] then None else labelText;
      this.showPinLabels := showPinLabels;
      this.width := if |inputs| == 1 && |outputs| == 1 && !showPinLabels then 1 else 3;
      symmetric := |outputs| == 1;
      invert := false;
      color := White;
      pins := None;
      inverterConfig := None;
      topBottomBorder := Size2;
    }

    /** The constructor with neither label nor pin labels. */
    constructor Plain(name: string, inputs: seq<string>, outputs: seq<string>)
      ensures this.name == name && this.inputs == inputs && this.outputs == outputs
      ensures labelText.None? && !showPinLabels
      ensures width == DefaultWidth(|inputs|, |outputs|, false)
      ensures symmetric <==> |outputs| == 1
      ensures !invert && color == White && pins.None? && inverterConfig.None? && topBottomBorder == Size2
    {
      this.name := name;
      this.inputs := inputs;
      this.outputs := outputs;
      labelText := None;
      showPinLabels := false;
      this.width := if |inputs| == 1 && |outputs| == 1 then 1 else 3;
      symmetric := |outputs| == 1;
      invert := false;
      color := White;
      pins := None;
      inverterConfig := None;
      topBottomBorder := Size2;
    }

    method Invert(invert: bool)
      modifies this
      ensures this.invert == invert
      ensures width == old(width) && color == old(color) && pins == old(pins)
      ensures inverterConfig == old(inverterConfig) && topBottomBorder == old(topBottomBorder)
    {
      this.invert := invert;
    }

    method SetTopBottomBorder(border: int)
      modifies this
      ensures topBottomBorder == border
      ensures width == old(width) && invert == old(invert) && color == old(color)
      ensures pins == old(pins) && inverterConfig == old(inverterConfig)
    {
      topBottomBorder := border;
    }

    /** `setColor`: a null colour keeps the current one. */
    method SetColor(c: Option<Color>)
      modifies this
      ensures color == (if c.Some? then c.value else old(color))
      ensures width == old(width) && invert == old(invert) && pins == old(pins)
      ensures inverterConfig == old(inverterConfig) && topBottomBorder == old(topBottomBorder)
    {
      if c.Some? {
        color := c.value;
      }
    }

    /** `setInverterConfig`: an empty configuration is stored as none. */
    method SetInverterConfig(ic: set<string>)
      modifies this
      ensures inverterConfig == (if ic == {} then None else Some(ic))
      ensures width == old(width) && invert == old(invert) && color == old(color)
      ensures pins == old(pins) && topBottomBorder == old(topBottomBorder)
    {
      if ic == {} {
        inverterConfig := None;
      } else {
        inverterConfig := Some(ic);
      }
    }

    /** `setWide`: a wide shape is one raster wider. */
    method SetWide(wideShape: bool)
      modifies this
      ensures width == old(width) + (if wideShape then 1 else 0)
      ensures invert == old(invert) && color == old(color) && pins == old(pins)
      ensures inverterConfig == old(inverterConfig) && topBottomBorder == old(topBottomBorder)
    {
      if wideShape {
        width := width + 1;
      }
    }

    /**
     * `getPins`: the first call builds the layout from the current state and
     * keeps it; later calls return the kept pins, whatever changed since.
     */
    method GetPins() returns (p: seq<Pin>)
      modifies this
      ensures old(pins).None? ==> p == PinLayout(inputs, outputs, invert, width, symmetric, inverterConfig)
      ensures old(pins).Some? ==> p == old(pins).value
      ensures pins == Some(p)
      ensures width == old(width) && invert == old(invert) && color == old(color)
      ensures inverterConfig == old(inverterConfig) && topBottomBorder == old(topBottomBorder)
    {
      if pins.None? {
        var built := BuildPins(inputs, outputs, invert, width, symmetric, inverterConfig);
        pins := Some(built);
      }
      p := pins.value;
    }

    /** The bottom edge of the box for the current state. */
    function Bottom(): (y: int)
      reads this
      ensures topBottomBorder >= 0 && (symmetric <==> |outputs| == 1) ==>
        forall q :: q in PinLayout(inputs, outputs, invert, width, symmetric, inverterConfig) ==> q.y <= y
    {
      var y := YBottom(|inputs|, |outputs|, symmetric, topBottomBorder);
      if topBottomBorder >= 0 && (symmetric <==> |outputs| == 1) then
        PinsInsideBox(inputs, outputs, invert, width, inverterConfig, topBottomBorder);
        y
      else y
    }

    /** The box `drawTo` draws for the current state. */
    function Box(): (r: seq<(int, int)>)
      reads this
      ensures |r| == 4 && r[0].1 == -topBottomBorder && r[2].1 == Bottom()
    {
      BoxCorners(width, topBottomBorder, Bottom())
    }
  }
}
