/**
 * Key strokes as AWT reports them: a set of held modifiers and a virtual key
 * code. Only the key codes the core tells apart are named; every other key is
 * `VkOther` with its numeric code.
 */
module Keys {

  datatype Modifier = Ctrl | Meta | Alt | Shift

  datatype KeyCode =
    | VkShift | VkControl | VkAlt | VkMeta
    | VkEscape | VkEnter | VkUp | VkDown
    | VkSpace | VkPlus | VkAdd | VkMinus | VkSubtract | VkEquals
    | VkOther(code: int)

  /** A `KeyStroke` (or a key-pressed event): modifiers plus key code. */
  datatype KeyStroke = KeyStroke(modifiers: set<Modifier>, code: KeyCode)

  /** The keys that only change the modifier state. */
  predicate IsModifierKey(code: KeyCode) {
    code == VkShift || code == VkControl || code == VkAlt || code == VkMeta
  }
}
