# Digital-Dark interface core in Dafny

This is a model of six classes of Digital-Dark's user interface, a fork of the
Digital logic-circuit simulator. Each class is listed below with the model's
files for it.

- **AutocompleteSearchField**: the sidebar search field. It flattens the
  component library into the list of insertable leaves, then ranks the leaves
  against the typed text: components whose name or id starts with the query
  come first, then those that only contain it, at most 12 in all. The keyboard
  moves a cursor through the drop-down, and Enter or a click inserts the chosen
  component.
  Files: `catalog.dfy`, `ranking.dfy`, `cursor.dfy`, `sidebar.dfy`.
- **ComponentSearchDialog**: the F2 spotlight dialog. It uses the same
  ranking with a limit of 10 and lists the first ten components while the field
  is empty. Its cursor is moved differently at the top of the list.
  File: `spotlight.dfy`.
- **ShortcutDialog**: the keyboard-shortcut registry and its dialog.
  - Custom bindings are loaded once from `~/.digital-shortcuts.cfg`, as a
    `LinkedHashMap` kept in insertion order.
  - The table has 32 default actions.
  - Saving keeps a binding only where it differs from the default. The file is
    re-read as the same map, and this round trip is proved.
  - Also modelled: key strokes formatted as "Ctrl+Shift+N", display strings
    rewritten into Swing's "ctrl shift N" syntax, and the cell editor that
    captures a key press.
  Files: `linkedmap.dfy`, `shortcutconfig.dfy`, `keyformat.dfy`, `shortcuts.dfy`.
- **ToolTipAction**: the accelerator display text and HTML wrapping, which
  escapes `<` and `>` and sets an explicit `#rrggbb` foreground. It also covers
  appending the accelerator to plain and HTML tips, and the tips of icon-only
  buttons.
  File: `tooltips.dfy`.
- **ComponentColors**: the dark-mode palettes. A palette entry is chosen by
  Java's `String.hashCode` and the embedded palette is cycled through by a
  counter.
  File: `colors.dfy`.
- **GenericShape**: the box shape's pin layout on the 20-unit raster, the box
  that `drawTo` outlines, the fill colour choice and the chained setters.
  File: `shapes.dfy`.

Support modules:

| module | contents |
|---|---|
| `wrappers.dfy` | `Option` and `Result` |
| `text.dfy` | the `java.lang.String` operations used |
| `keys.dfy` | key codes and modifiers |
| `rgb.dfy` | colours |
| `javaint.dfy` | Java `int` wrap-around and `%` |

Values that the program reads from the environment are parameters of the
model:
- the look-and-feel colours;
- whether the platform is a Mac;
- the use-equals-key setting;
- the scheme background;
- `KeyEvent.getKeyText`;
- `KeyStroke.getKeyStroke(String)`;
- the contents of the shortcut file, as `Option<seq<string>>`, where a missing
  file is `None`.

## Model

| member | source | states |
|---|---|---|
| Catalog.Flatten | src/main/java/de/neemann/digital/gui/AutocompleteSearchField.java:226-241 | every collected node is a visible unique leaf (hidden groups and plain groups never appear) |
| Catalog.FlattenChildren | src/main/java/de/neemann/digital/gui/AutocompleteSearchField.java:234-239 | the children's flattening holds only visible unique leaves |
| Catalog.FlattenMembers | src/main/java/de/neemann/digital/gui/AutocompleteSearchField.java:226-241 | a leaf is collected with a category exactly when it is selectable and reached through visible groups whose innermost one has that translated name (both directions, against the independent `Reaches` relation) |
| Catalog.FlattenChildrenMembers | src/main/java/de/neemann/digital/gui/AutocompleteSearchField.java:234-239 | the same iff for a list of children |
| Catalog.FlattenChildrenAppend | src/main/java/de/neemann/digital/gui/AutocompleteSearchField.java:234-239 | flattening distributes over concatenation of children |
| Catalog.RecordAppend | src/main/java/de/neemann/digital/gui/AutocompleteSearchField.java:229-231 | recording categories for a concatenation is recording one part after the other |
| Catalog.RecordLookup | src/main/java/de/neemann/digital/gui/AutocompleteSearchField.java:229-231 | with no repeated component, the category map's keys are the old keys plus the collected components, each collected component maps to its own category, and other keys keep their values |
| Catalog.CollectLeafNodes | src/main/java/de/neemann/digital/gui/AutocompleteSearchField.java:226-241 | the recursive collection appends exactly the flattened leaves, in tree order, and records exactly their categories |
| Catalog.CollectChildren | src/main/java/de/neemann/digital/gui/ComponentSearchDialog.java:342-357 | the loop over a group's children appends the children's flattening and records its categories (loop invariants over the prefix processed) |
| Ranking.RankedBound | src/main/java/de/neemann/digital/gui/AutocompleteSearchField.java:257-278 | never more results than the limit |
| Ranking.RankedMatch | src/main/java/de/neemann/digital/gui/AutocompleteSearchField.java:257-278 | every result is a catalog entry whose lower-cased name or id contains the query |
| Ranking.RankedTierOrder | src/main/java/de/neemann/digital/gui/AutocompleteSearchField.java:257-278 | no contains-only result is ranked above a starts-with result |
| Ranking.RankedDistinct | src/main/java/de/neemann/digital/gui/AutocompleteSearchField.java:257-278 | over a catalog without repeats no result appears twice (the second pass skips starts-with entries) |
| Ranking.RankedOrder | src/main/java/de/neemann/digital/gui/AutocompleteSearchField.java:257-278 | the results are a prefix of the starts-with tier followed by a prefix of the contains-only tier, each a subsequence of the catalog |
| Ranking.RankedComplete | src/main/java/de/neemann/digital/gui/AutocompleteSearchField.java:257-278 | a list shorter than the limit holds every match, and once a contains-only entry is listed every starts-with entry is too |
| Ranking.RankedEmptyQuery | src/main/java/de/neemann/digital/gui/ComponentSearchDialog.java:260-272 | with an empty query the ranking is the first `limit` catalog entries |
| Ranking.TierMembers | src/main/java/de/neemann/digital/gui/AutocompleteSearchField.java:257-266 | a tier holds exactly the catalog entries belonging to it |
| Ranking.TierIsSubsequence | src/main/java/de/neemann/digital/gui/AutocompleteSearchField.java:257-266 | each tier keeps catalog order |
| Ranking.TierDistinct | src/main/java/de/neemann/digital/gui/AutocompleteSearchField.java:268-278 | a tier of a repeat-free catalog is repeat-free |
| Ranking.TierAppend | src/main/java/de/neemann/digital/gui/AutocompleteSearchField.java:257-266 | a tier of a concatenation is the concatenation of the tiers |
| Ranking.Rank | src/main/java/de/neemann/digital/gui/AutocompleteSearchField.java:255-278 | the two counted passes over the catalog compute exactly the ranked list |
| Ranking.FirstEntries | src/main/java/de/neemann/digital/gui/ComponentSearchDialog.java:260-272 | the loop listing the first entries yields the first `limit` entries, which is the ranking for the empty query |
| Cursor.SidebarDown | src/main/java/de/neemann/digital/gui/AutocompleteSearchField.java:139-145 | Down moves one row further unless on the last row, and stays a valid cursor |
| Cursor.SidebarUp | src/main/java/de/neemann/digital/gui/AutocompleteSearchField.java:146-154 | Up moves one row up; from the top row or no row it clears the selection |
| Cursor.SpotlightDown | src/main/java/de/neemann/digital/gui/ComponentSearchDialog.java:155-162 | Down goes to `min(sel + 1, size - 1)` and from no selection to row 0; nothing moves in an empty list |
| Cursor.SpotlightUp | src/main/java/de/neemann/digital/gui/ComponentSearchDialog.java:163-169 | Up moves one row up and never leaves row 0 or no selection |
| Cursor.MovesKeepSelectionValid | src/main/java/de/neemann/digital/gui/AutocompleteSearchField.java:139-154 | after any key sequence either cursor is no selection or a valid row |
| Cursor.DownsClamp | src/main/java/de/neemann/digital/gui/ComponentSearchDialog.java:155-162 | k Down presses land on `min(sel + k, size - 1)` in both lists |
| Cursor.UpFromTop | src/main/java/de/neemann/digital/gui/AutocompleteSearchField.java:146-154 | Up at row 0 clears the sidebar's selection but keeps the spotlight's |
| Sidebar.PopupHeight | src/main/java/de/neemann/digital/gui/AutocompleteSearchField.java:329-330 | the drop-down is one 34-pixel row per result plus 4, capped at twelve rows |
| Sidebar.ResultsMatch | src/main/java/de/neemann/digital/gui/AutocompleteSearchField.java:246-278 | at most twelve rows, each a leaf matching the trimmed lower-cased text; blank text lists nothing |
| Sidebar.EmptyTextNoResults | src/main/java/de/neemann/digital/gui/AutocompleteSearchField.java:250-253 | the empty field lists nothing |
| Sidebar.NodesSelectable | src/main/java/de/neemann/digital/gui/AutocompleteSearchField.java:226-241 | every collected node is a visible unique leaf |
| Sidebar.AutocompleteSearchField.constructor | src/main/java/de/neemann/digital/gui/AutocompleteSearchField.java:62-65 | the leaves and categories are the library's flattening, the field empty and the drop-down closed |
| Sidebar.AutocompleteSearchField.ShowPopup | src/main/java/de/neemann/digital/gui/AutocompleteSearchField.java:292-333 | the drop-down opens, sized to its rows, only when the field is on screen |
| Sidebar.AutocompleteSearchField.OnTextChanged | src/main/java/de/neemann/digital/gui/AutocompleteSearchField.java:246-286 | the rows become the ranking of the text, the first one is selected and the drop-down opens exactly when there are rows |
| Sidebar.AutocompleteSearchField.SetText | src/main/java/de/neemann/digital/gui/AutocompleteSearchField.java:246-286 | a text edit re-ranks as above |
| Sidebar.AutocompleteSearchField.InsertComponent | src/main/java/de/neemann/digital/gui/AutocompleteSearchField.java:344-357 | a group or a non-unique leaf is ignored; a unique leaf is inserted when its description loads, and otherwise only an error message naming it is left |
| Sidebar.AutocompleteSearchField.Choose | src/main/java/de/neemann/digital/gui/AutocompleteSearchField.java:155-162 | choosing a listed row attempts its insertion as `insertComponent` does, empties the field and closes the drop-down |
| Sidebar.AutocompleteSearchField.KeyPressed | src/main/java/de/neemann/digital/gui/AutocompleteSearchField.java:128-170 | closed drop-down: only Down acts, opening on row 0; open: Down/Up move the cursor, Enter attempts the selected row's insertion (nothing without one), Escape closes, other keys change nothing |
| Sidebar.AutocompleteSearchField.Click | src/main/java/de/neemann/digital/gui/AutocompleteSearchField.java:176-183 | a click attempts the insertion of the row `locationToIndex` gives, the nearest row, so a click past the last row picks the last row; for an empty list (-1) nothing changes |
| Sidebar.AutocompleteSearchField.Hover | src/main/java/de/neemann/digital/gui/AutocompleteSearchField.java:189-194 | hovering over a row selects it |
| Sidebar.AutocompleteSearchField.FocusGained | src/main/java/de/neemann/digital/gui/AutocompleteSearchField.java:213-219 | focus re-opens the drop-down when the trimmed text is non-empty and found rows |
| Sidebar.AutocompleteSearchField.FocusLost | src/main/java/de/neemann/digital/gui/AutocompleteSearchField.java:200-210 | the drop-down closes unless the field got focus back before the delay ran out |
| Sidebar.AutocompleteSearchField.WindowChanged | src/main/java/de/neemann/digital/gui/AutocompleteSearchField.java:335-339 | window movement closes the drop-down |
| Sidebar.AutocompleteSearchField.ClearButton | src/main/java/de/neemann/digital/gui/AutocompleteSearchField.java:91-94 | the clear button empties the field, its rows and closes the drop-down |
| Spotlight.FitHeight | src/main/java/de/neemann/digital/gui/ComponentSearchDialog.java:314-319 | 52 plus 38 per row (at most ten) plus 6; room for one row when empty |
| Spotlight.ShowHeight | src/main/java/de/neemann/digital/gui/ComponentSearchDialog.java:238 | the height set when opening agrees with the fitted one except for an empty list, where it is 58 and smaller |
| Spotlight.ListingIsRanking | src/main/java/de/neemann/digital/gui/ComponentSearchDialog.java:274-312 | the empty-field listing and the ranking are one formula |
| Spotlight.ListingInLeaves | src/main/java/de/neemann/digital/gui/ComponentSearchDialog.java:274-312 | every listed row is a leaf |
| Spotlight.ListingIsSidebarPrefix | src/main/java/de/neemann/digital/gui/ComponentSearchDialog.java:274-312 | for non-blank text the dialog lists the first ten of the sidebar's twelve rows |
| Spotlight.ComponentSearchDialog.constructor | src/main/java/de/neemann/digital/gui/ComponentSearchDialog.java:58-69 | leaves and categories are the library's flattening; the dialog is hidden and empty |
| Spotlight.ComponentSearchDialog.PopulateAll | src/main/java/de/neemann/digital/gui/ComponentSearchDialog.java:260-272 | the first ten leaves listed, row 0 selected, height fitted |
| Spotlight.ComponentSearchDialog.UpdateResults | src/main/java/de/neemann/digital/gui/ComponentSearchDialog.java:274-312 | the listing of the text, row 0 selected when there is one, height fitted |
| Spotlight.ComponentSearchDialog.SetText | src/main/java/de/neemann/digital/gui/ComponentSearchDialog.java:274-312 | an edit re-lists as above |
| Spotlight.ComponentSearchDialog.ShowDialog | src/main/java/de/neemann/digital/gui/ComponentSearchDialog.java:230-251 | opens with an empty field, the first ten leaves and the opening height |
| Spotlight.ComponentSearchDialog.CloseDialog | src/main/java/de/neemann/digital/gui/ComponentSearchDialog.java:253-255 | hides the dialog and nothing else |
| Spotlight.ComponentSearchDialog.InsertAndClose | src/main/java/de/neemann/digital/gui/ComponentSearchDialog.java:324-340 | a unique leaf is inserted when its description loads, and otherwise an error message names it; the dialog closes in every case, failed load included |
| Spotlight.ComponentSearchDialog.Choose | src/main/java/de/neemann/digital/gui/ComponentSearchDialog.java:170-175 | the chosen row's insertion is attempted and the dialog closes; the text is kept |
| Spotlight.ComponentSearchDialog.KeyPressed | src/main/java/de/neemann/digital/gui/ComponentSearchDialog.java:152-183 | Down/Up move the cursor by the spotlight rules, Enter attempts the selected row's insertion and closes, Escape closes, other keys change nothing |
| Spotlight.ComponentSearchDialog.Click | src/main/java/de/neemann/digital/gui/ComponentSearchDialog.java:189-194 | a click attempts the insertion of the row `locationToIndex` gives, the nearest row, and closes; for an empty list (-1) nothing changes |
| Spotlight.ComponentSearchDialog.Hover | src/main/java/de/neemann/digital/gui/ComponentSearchDialog.java:200-205 | hovering over a row selects it |
| Spotlight.ComponentSearchDialog.WindowLostFocus | src/main/java/de/neemann/digital/gui/ComponentSearchDialog.java:209-214 | losing window focus closes the dialog |
| LinkedMap.Keys | src/main/java/de/neemann/digital/gui/ShortcutDialog.java:27 | the keys in iteration order, one per binding |
| LinkedMap.Get | src/main/java/de/neemann/digital/gui/ShortcutDialog.java:240 | absent exactly when no binding has the key |
| LinkedMap.GetOrDefault | src/main/java/de/neemann/digital/gui/ShortcutDialog.java:55 | the bound value, or the default when the key is absent |
| LinkedMap.Put | src/main/java/de/neemann/digital/gui/ShortcutDialog.java:341 | the key now maps to the value, other lookups unchanged, an existing key keeps its place, a new one is appended |
| LinkedMap.PutUnique | src/main/java/de/neemann/digital/gui/ShortcutDialog.java:341 | `put` keeps keys duplicate-free |
| LinkedMap.PutBindings | src/main/java/de/neemann/digital/gui/ShortcutDialog.java:356 | after `put` every binding is the new one or an old one |
| LinkedMap.Remove | src/main/java/de/neemann/digital/gui/ShortcutDialog.java:358 | the key is gone, other lookups unchanged, order kept, absent key a no-op |
| LinkedMap.GetOfUnique | src/main/java/de/neemann/digital/gui/ShortcutDialog.java:27 | with unique keys, `get` returns the value of the key's binding |
| LinkedMap.SameLookupsEqual | src/main/java/de/neemann/digital/gui/ShortcutDialog.java:27 | two maps with the same key order and lookups are equal |
| ShortcutConfig.ParseLine | src/main/java/de/neemann/digital/gui/ShortcutDialog.java:334-341 | a parsed binding has a non-empty trimmed key without `=` or leading `#` and a trimmed value |
| ShortcutConfig.ParseLineSkips | src/main/java/de/neemann/digital/gui/ShortcutDialog.java:333-337 | a line is skipped exactly when, trimmed, it is blank, starts with `#`, has no `=`, or starts with `=` |
| ShortcutConfig.ParseLineSplits | src/main/java/de/neemann/digital/gui/ShortcutDialog.java:336-340 | a read line splits at its first `=`, which is not its first character; the key is the trimmed text before it and the value the trimmed text after it |
| ShortcutConfig.RenderLines | src/main/java/de/neemann/digital/gui/ShortcutDialog.java:366-368 | one line per binding |
| ShortcutConfig.ParseLinesWellFormed | src/main/java/de/neemann/digital/gui/ShortcutDialog.java:333-342 | reading a file keeps the map well formed |
| ShortcutConfig.CommentSkipped | src/main/java/de/neemann/digital/gui/ShortcutDialog.java:335-336 | a `#` line is ignored |
| ShortcutConfig.HeaderIsComments | src/main/java/de/neemann/digital/gui/ShortcutDialog.java:363-365 | the three header lines are comments |
| ShortcutConfig.CommentsSkipped | src/main/java/de/neemann/digital/gui/ShortcutDialog.java:333-342 | comment lines change nothing |
| ShortcutConfig.IndexOfSeparator | src/main/java/de/neemann/digital/gui/ShortcutDialog.java:337 | in a written line the first `=` ends the key |
| ShortcutConfig.ParseRenderLine | src/main/java/de/neemann/digital/gui/ShortcutDialog.java:337-341 | a written well-formed line reads back as its binding |
| ShortcutConfig.ParseRenderLines | src/main/java/de/neemann/digital/gui/ShortcutDialog.java:333-342 | written lines read into a disjoint map append their bindings in order |
| ShortcutConfig.RoundTrip | src/main/java/de/neemann/digital/gui/ShortcutDialog.java:362-368 | saving then loading reproduces every well-formed map, order included, with the file taken as its sequence of lines |
| ShortcutConfig.ReadWriteRead | src/main/java/de/neemann/digital/gui/ShortcutDialog.java:321-368 | whatever a file holds, writing what was read and reading again gives the same map |
| KeyFormat.StripPrefix | src/main/java/de/neemann/digital/gui/ShortcutDialog.java:290-295 | reports whether the prefix was there and returns the rest |
| KeyFormat.ParseFormat | src/main/java/de/neemann/digital/gui/ShortcutDialog.java:284-319 | the display string gives back Ctrl, Alt, Shift and the key name exactly; only Meta is lost |
| KeyFormat.FormatInjective | src/main/java/de/neemann/digital/gui/ShortcutDialog.java:284-319 | two strokes share a display string iff they agree on Ctrl, Alt, Shift and the key name |
| KeyFormat.FormatIgnoresMeta | src/main/java/de/neemann/digital/gui/ShortcutDialog.java:289-295 | holding Meta does not change the stored string |
| KeyFormat.ParseShortcut | src/main/java/de/neemann/digital/gui/ShortcutDialog.java:249-276 | null or empty gives nothing; otherwise Swing's parse of the rewritten string, or of its upper-case form when that fails |
| KeyFormat.ModifiersRewritten | src/main/java/de/neemann/digital/gui/ShortcutDialog.java:255-258 | the modifier replacements turn display modifiers into Swing's |
| KeyFormat.KeysRewritten | src/main/java/de/neemann/digital/gui/ShortcutDialog.java:259-261 | the key-name replacements leave Swing's modifiers alone |
| KeyFormat.RewritePrefix | src/main/java/de/neemann/digital/gui/ShortcutDialog.java:255-261 | all six replacements turn the modifier prefix into Swing's, whatever follows |
| KeyFormat.RewriteName | src/main/java/de/neemann/digital/gui/ShortcutDialog.java:259-261 | Plus, Minus and Space become upper case, other plain names are kept |
| KeyFormat.SwingFormatOfCapture | src/main/java/de/neemann/digital/gui/ShortcutDialog.java:255-262 | every captured shortcut with a plain or fixed key name reaches Swing as its modifiers and key in Swing's own syntax |
| KeyFormat.CaptureKey | src/main/java/de/neemann/digital/gui/ShortcutDialog.java:476-491 | a modifier key alone is ignored, Escape cancels, any other key commits its display string |
| Shortcuts.DefaultIdsUnique | src/main/java/de/neemann/digital/gui/ShortcutDialog.java:183-226 | no two of the 32 default actions share an id |
| Shortcuts.NewEntry | src/main/java/de/neemann/digital/gui/ShortcutDialog.java:51-56 | a row shows the custom binding when there is one, the default otherwise |
| Shortcuts.NewEntries | src/main/java/de/neemann/digital/gui/ShortcutDialog.java:181-229 | one row per action |
| Shortcuts.SaveEntriesHit | src/main/java/de/neemann/digital/gui/ShortcutDialog.java:354-360 | after saving, each row's id holds exactly that row's shortcut if it differs from the default, nothing otherwise |
| Shortcuts.SaveEntriesMiss | src/main/java/de/neemann/digital/gui/ShortcutDialog.java:354-360 | bindings for ids of no row, such as unknown actions read from the file, are kept |
| Shortcuts.SaveEntriesUnique | src/main/java/de/neemann/digital/gui/ShortcutDialog.java:354-360 | saving keeps keys duplicate-free |
| Shortcuts.SaveEntriesWellFormed | src/main/java/de/neemann/digital/gui/ShortcutDialog.java:354-360 | with file-safe ids and trimmed shortcuts the saved map stays writable |
| Shortcuts.ReopenShowsSaved | src/main/java/de/neemann/digital/gui/ShortcutDialog.java:51-56 | re-opening the dialog in the same session shows every row as saved |
| Shortcuts.SavedFileReadBack | src/main/java/de/neemann/digital/gui/ShortcutDialog.java:321-374 | a fresh session reads the saved file back into the same map |
| Shortcuts.SaveDefaultsEmpty | src/main/java/de/neemann/digital/gui/ShortcutDialog.java:168-179 | saving rows that all show defaults into the cleared map leaves it empty, so a reset writes only the header |
| Shortcuts.ConfigFile.constructor | src/main/java/de/neemann/digital/gui/ShortcutDialog.java:26 | the file is absent or holds the given lines |
| Shortcuts.Registry.constructor | src/main/java/de/neemann/digital/gui/ShortcutDialog.java:27-28 | the map is empty and nothing has been read |
| Shortcuts.Registry.Load | src/main/java/de/neemann/digital/gui/ShortcutDialog.java:321-347 | the file is read only the first time; a missing file leaves the map; otherwise its lines are read into the map; once loaded it is a no-op whatever the map holds |
| Shortcuts.Registry.GetShortcut | src/main/java/de/neemann/digital/gui/ShortcutDialog.java:238-241 | loads, then gives the custom binding or the default; callable once loaded whatever the map holds, as after a dialog save |
| Shortcuts.ShortcutDialog.constructor | src/main/java/de/neemann/digital/gui/ShortcutDialog.java:85-96 | loads the registry and builds one row per default action from it |
| Shortcuts.ShortcutDialog.RowCount | src/main/java/de/neemann/digital/gui/ShortcutDialog.java:382-384 | one row per default action |
| Shortcuts.ShortcutDialog.GetValueAt | src/main/java/de/neemann/digital/gui/ShortcutDialog.java:397-401 | column 0 is the description, any other column the current shortcut |
| Shortcuts.ShortcutDialog.SetValueAt | src/main/java/de/neemann/digital/gui/ShortcutDialog.java:409-415 | a shortcut-column value replaces the row's shortcut and marks the dialog modified; other columns change nothing; any string is stored, with no check that it parses as a shortcut |
| Shortcuts.ShortcutDialog.Save | src/main/java/de/neemann/digital/gui/ShortcutDialog.java:349-374 | folds the rows into the registry and writes the header and every binding |
| Shortcuts.ShortcutDialog.ResetAllDefaults | src/main/java/de/neemann/digital/gui/ShortcutDialog.java:168-179 | every row back to its default, the map empty and a header-only file written |
| Shortcuts.ShortcutDialog.Close | src/main/java/de/neemann/digital/gui/ShortcutDialog.java:155-159 | saves only when modified, then disposes |
| Shortcuts.ShortcutDialog.StartEditing | src/main/java/de/neemann/digital/gui/ShortcutDialog.java:497-503 | editing starts from the row's shortcut with the field asking for a key |
| Shortcuts.ShortcutDialog.EditorKeyPressed | src/main/java/de/neemann/digital/gui/ShortcutDialog.java:476-491 | a modifier key waits, Escape cancels the edit, any other key becomes the row's shortcut and marks the dialog modified; the key commits whatever `formatKeyStroke` gives, with no combination rejected |
| Text.Trim | src/main/java/de/neemann/digital/gui/AutocompleteSearchField.java:247 | the result has no white space at either end |
| Text.TrimDropsOuterSpace | src/main/java/de/neemann/digital/gui/AutocompleteSearchField.java:247 | the result is a slice of the input, and everything before and after that slice is white space |
| Text.TrimOfTrimmed | src/main/java/de/neemann/digital/gui/ShortcutDialog.java:339-340 | trimming a trimmed string changes nothing |
| Text.IndexOf | src/main/java/de/neemann/digital/gui/ShortcutDialog.java:337 | the first index of the character, or -1 exactly when it is absent |
| Text.ReplaceAtFront | src/main/java/de/neemann/digital/gui/ShortcutDialog.java:255-261 | a leading occurrence is replaced and the scan continues after it |
| Text.ReplaceSkips | src/main/java/de/neemann/digital/gui/ShortcutDialog.java:255-261 | a prefix in which no occurrence starts is copied unchanged |
| Text.ReplaceNone | src/main/java/de/neemann/digital/gui/ShortcutDialog.java:255-261 | a string without the target is left as it is |
| ToolTips.ColorHex | src/main/java/de/neemann/gui/ToolTipAction.java:177 | seven characters: `#` then six hex digits |
| ToolTips.ColorHexRoundTrip | src/main/java/de/neemann/gui/ToolTipAction.java:177 | reading the hex string back gives the printed colour |
| ToolTips.EscapeIsEscaped | src/main/java/de/neemann/gui/ToolTipAction.java:178 | the two `replace` calls escape every character on its own |
| ToolTips.EscapedHasNoBrackets | src/main/java/de/neemann/gui/ToolTipAction.java:178 | no `<` or `>` survives escaping |
| ToolTips.EscapedPlain | src/main/java/de/neemann/gui/ToolTipAction.java:178 | text without brackets is unchanged by escaping |
| ToolTips.WrapTooltipHtml | src/main/java/de/neemann/gui/ToolTipAction.java:171-180 | null stays null, the result always starts with `<html>`, HTML text is kept |
| ToolTips.WrappedPlain | src/main/java/de/neemann/gui/ToolTipAction.java:175-179 | a plain text becomes the colour span around its escaped form, which has no brackets |
| ToolTips.AdjustPlus | src/main/java/de/neemann/gui/ToolTipAction.java:132-133 | Plus becomes Equals, with the same modifiers, under the use-equals setting; any other stroke is kept |
| ToolTips.AcceleratorDisplayText | src/main/java/de/neemann/gui/ToolTipAction.java:187-197 | null exactly when there is no accelerator; otherwise the text ends with the key text, and is only the key text without modifiers |
| ToolTips.DisplayInsertsCmd | src/main/java/de/neemann/gui/ToolTipAction.java:187-197 | outside the keys the shortcut dialog renames, the tooltip text is the dialog's text with "Cmd+" put in after "Ctrl+" when Meta is held |
| ToolTips.MenuModifierShown | src/main/java/de/neemann/gui/ToolTipAction.java:108-113 | the menu shortcut `getCTRLMask` picks shows as "Cmd+" and the key on a Mac and as "Ctrl+" and the key elsewhere, the Plus adjustment included |
| ToolTips.DisplayAgreesWithDialog | src/main/java/de/neemann/gui/ToolTipAction.java:187-197 | without Cmd and outside the renamed keys, the tooltip names a shortcut as the shortcut dialog does |
| ToolTips.AppendAccelerator | src/main/java/de/neemann/gui/ToolTipAction.java:199-206 | no accelerator or no tip returns the tip; a plain tip gets " (accel)" at its end |
| ToolTips.AppendToHtml | src/main/java/de/neemann/gui/ToolTipAction.java:202-204 | an HTML tip gets the suffix before its closing tags |
| ToolTips.AppendAfterWrap | src/main/java/de/neemann/gui/ToolTipAction.java:199-206 | in a wrapped tip the suffix lands just before the closing tags after the escaped text |
| ToolTips.AppendCommutesWithWrap | src/main/java/de/neemann/gui/ToolTipAction.java:171-206 | for a plain tip and a bracket-free accelerator, appending after wrapping equals wrapping the appended tip |
| ToolTips.AppendKeepsHtml | src/main/java/de/neemann/gui/ToolTipAction.java:229-230 | an HTML tip stays HTML after the accelerator is inserted |
| ToolTips.DirectNoTextTip | src/main/java/de/neemann/gui/ToolTipAction.java:225-235 | without an accelerator or a tip the tip is kept |
| ToolTips.ProviderNoTextTip | src/main/java/de/neemann/gui/ToolTipAction.java:239-245 | null exactly when the provider gives null; otherwise HTML |
| ToolTips.DirectNoTextIsWrappedAppend | src/main/java/de/neemann/gui/ToolTipAction.java:228-233 | with an accelerator the icon-only tip is the wrapped appended tip |
| ToolTips.NoTextVariantsAgree | src/main/java/de/neemann/gui/ToolTipAction.java:222-252 | for a plain tip the provider and direct icon-only buttons show the same tip |
| ToolTips.ToolTipAction.constructor | src/main/java/de/neemann/gui/ToolTipAction.java:30-43 | a name and an optional icon; no tip, accelerator or provider |
| ToolTips.ToolTipAction.SetToolTipProvider | src/main/java/de/neemann/gui/ToolTipAction.java:79-82 | sets the provider and nothing else |
| ToolTips.ToolTipAction.SetIcon | src/main/java/de/neemann/gui/ToolTipAction.java:50-53 | sets the icon and nothing else |
| ToolTips.ToolTipAction.SetToolTip | src/main/java/de/neemann/gui/ToolTipAction.java:68-71 | stores the line-broken text |
| ToolTips.ToolTipAction.SetAccelerator | src/main/java/de/neemann/gui/ToolTipAction.java:131-136 | stores the stroke, Plus adjusted to Equals under the setting |
| ToolTips.ToolTipAction.SetAcceleratorCtrlPlus | src/main/java/de/neemann/gui/ToolTipAction.java:90-92 | the key with the platform's menu modifier |
| ToolTips.ToolTipAction.SetAcceleratorCtrlPlusText | src/main/java/de/neemann/gui/ToolTipAction.java:100-103 | fails exactly when Swing cannot parse the string; otherwise its key code with the menu modifier |
| ToolTips.ToolTipAction.SetAcceleratorText | src/main/java/de/neemann/gui/ToolTipAction.java:121-123 | fails exactly when Swing cannot parse the string, leaving the accelerator; otherwise stores the parsed stroke |
| ToolTips.ToolTipAction.EnableAcceleratorIn | src/main/java/de/neemann/gui/ToolTipAction.java:144-150 | fails exactly without an accelerator; otherwise the input map binds it to this action |
| ToolTips.ToolTipAction.ButtonToolTip | src/main/java/de/neemann/gui/ToolTipAction.java:211-217 | a tip is set exactly when the action has one |
| ToolTips.ToolTipAction.NoTextToolTip | src/main/java/de/neemann/gui/ToolTipAction.java:222-252 | with a provider, null iff it gives null; without provider or accelerator the stored tip or else the button text |
| ComponentColors.PalettesValid | src/main/java/de/neemann/digital/draw/graphics/ComponentColors.java:20-57 | both palettes hold sixteen valid colours |
| ComponentColors.SameColours | src/main/java/de/neemann/digital/draw/graphics/ComponentColors.java:20-57 | the embedded palette is a permutation of the dark palette |
| ComponentColors.HashCode | src/main/java/de/neemann/digital/draw/graphics/ComponentColors.java:76 | `String.hashCode` stays in the `int` range |
| ComponentColors.HashIsPolynomial | src/main/java/de/neemann/digital/draw/graphics/ComponentColors.java:76 | wrapping at each step equals wrapping the unbounded polynomial once |
| ComponentColors.ClearSign | src/main/java/de/neemann/digital/draw/graphics/ComponentColors.java:76 | `& 0x7FFFFFFF` is the non-negative remainder modulo 2^31 |
| ComponentColors.PaletteIndex | src/main/java/de/neemann/digital/draw/graphics/ComponentColors.java:75-77 | always a valid palette index |
| ComponentColors.PaletteIndexOfHash | src/main/java/de/neemann/digital/draw/graphics/ComponentColors.java:76-77 | for a non-empty name, the polynomial modulo 2^31 modulo 16 |
| ComponentColors.ClearSignOfWrap | src/main/java/de/neemann/digital/draw/graphics/ComponentColors.java:76 | clearing the sign of a wrapped value keeps its low 31 bits |
| ComponentColors.ColorForComponent | src/main/java/de/neemann/digital/draw/graphics/ComponentColors.java:73-78 | null iff light mode; otherwise a dark-palette colour, entry 0 for a null or empty name |
| ComponentColors.ColorForEmbedded | src/main/java/de/neemann/digital/draw/graphics/ComponentColors.java:100-105 | null iff light mode; otherwise an embedded-palette colour, entry 0 for a null or empty name |
| ComponentColors.SamePosition | src/main/java/de/neemann/digital/draw/graphics/ComponentColors.java:73-105 | a name gets the same position in both palettes |
| ComponentColors.CycleIndex | src/main/java/de/neemann/digital/draw/graphics/ComponentColors.java:88 | the intended index is always valid |
| ComponentColors.CounterStep | src/main/java/de/neemann/digital/draw/graphics/ComponentColors.java:89 | one more call advances the wrapped counter by one |
| ComponentColors.AsWrittenBeforeOverflow | src/main/java/de/neemann/digital/draw/graphics/ComponentColors.java:87-91 | before the counter overflows, the index as written is the intended one |
| ComponentColors.AsWrittenOverflows | src/main/java/de/neemann/digital/draw/graphics/ComponentColors.java:87-91 | call 2^31 + 2 computes index -15 |
| ComponentColors.CycleAcrossOverflow | src/main/java/de/neemann/digital/draw/graphics/ComponentColors.java:87-91 | the intended index after n calls is n mod 16, through the overflow |
| ComponentColors.NextColors | src/main/java/de/neemann/digital/draw/graphics/ComponentColors.java:87-91 | one colour per call |
| ComponentColors.SixteenCalls | src/main/java/de/neemann/digital/draw/graphics/ComponentColors.java:81-91 | any sixteen consecutive calls hand out the whole palette in order |
| ComponentColors.StepsTo | src/main/java/de/neemann/digital/draw/graphics/ComponentColors.java:81-91 | every entry comes up within sixteen calls |
| ComponentColors.EmbeddedCounter.constructor | src/main/java/de/neemann/digital/draw/graphics/ComponentColors.java:59 | the counter starts at 0 |
| ComponentColors.EmbeddedCounter.NextEmbeddedColor | src/main/java/de/neemann/digital/draw/graphics/ComponentColors.java:87-91 | hands out the palette entry at the counter modulo 16, never negative, and advances the counter with `int` wrap-around; this is the corrected index, since from call 2^31 + 2 the source's `%` goes negative and the array access throws (see Findings) |
| JavaInt.Wrap | src/main/java/de/neemann/digital/draw/graphics/ComponentColors.java:89 | an `int` congruent to the value modulo 2^32 |
| JavaInt.Rem | src/main/java/de/neemann/digital/draw/graphics/ComponentColors.java:88 | Java's `%`: the remainder takes the sign of the dividend, stays below the divisor in size, and differs from the dividend by a multiple of the divisor |
| Shapes.InvertedInputsMoved | src/main/java/de/neemann/digital/draw/shapes/GenericShape.java:176-178 | an input sits one raster left of the shape exactly when the inverter configuration names it, and on the left edge otherwise |
| Shapes.EmptyConfigIsNone | src/main/java/de/neemann/digital/draw/shapes/GenericShape.java:195-197 | an empty inverter configuration gives the same pins as none, so storing it as none changes nothing |
| Shapes.PinLayout | src/main/java/de/neemann/digital/draw/shapes/GenericShape.java:164-193 | every input in order, then every output in order |
| Shapes.BuildPins | src/main/java/de/neemann/digital/draw/shapes/GenericShape.java:164-193 | the two loops build exactly the layout |
| Shapes.CreatePins | src/main/java/de/neemann/digital/draw/shapes/GenericShape.java:149-151 | the public variant: symmetric, 4 rasters wide for a wide shape, else 3 |
| Shapes.PinsOnRaster | src/main/java/de/neemann/digital/draw/shapes/GenericShape.java:164-193 | every pin lies on the 20-unit raster |
| Shapes.InputsDescend | src/main/java/de/neemann/digital/draw/shapes/GenericShape.java:170-180 | inputs one raster apart, two at the middle of an even symmetric column |
| Shapes.InputsOrdered | src/main/java/de/neemann/digital/draw/shapes/GenericShape.java:170-180 | inputs strictly ordered top to bottom, so no two share a position |
| Shapes.OutputsRightOfInputs | src/main/java/de/neemann/digital/draw/shapes/GenericShape.java:183-190 | in a shape at least one raster wide, outputs lie right of every input, and any two outputs are one raster apart per position between them |
| Shapes.SingleOutputCentred | src/main/java/de/neemann/digital/draw/shapes/GenericShape.java:167-189 | a single output faces the middle input (odd count) or the gap between the two middle inputs (even count) |
| Shapes.EvenInputsMissOutput | src/main/java/de/neemann/digital/draw/shapes/GenericShape.java:167-173 | with an even input count no input is level with the single output |
| Shapes.BoxCorners | src/main/java/de/neemann/digital/draw/shapes/GenericShape.java:211-215 | four corners of an axis-aligned rectangle |
| Shapes.PinsInsideBox | src/main/java/de/neemann/digital/draw/shapes/GenericShape.java:206-215 | with a non-negative border every pin lies between the top and bottom edge of the drawn box |
| Shapes.DefaultWidth | src/main/java/de/neemann/digital/draw/shapes/GenericShape.java:71 | 1 iff one input, one output and no pin labels; 3 otherwise |
| Shapes.NormalLabel | src/main/java/de/neemann/digital/draw/shapes/GenericShape.java:88-90 | an empty label counts as none |
| Shapes.FillColor | src/main/java/de/neemann/digital/draw/shapes/GenericShape.java:218-223 | an explicit colour is kept; white gives a dark-palette colour in dark mode, the scheme fill otherwise |
| Shapes.Fill | src/main/java/de/neemann/digital/draw/shapes/GenericShape.java:224 | filled iff the fill colour is not the scheme background |
| Shapes.BoxFill | src/main/java/de/neemann/digital/draw/shapes/GenericShape.java:217-224 | with one scheme background for both steps: an explicit colour is painted unless it is the background; outside dark mode white paints the scheme fill unless that is the background; in dark mode white paints a dark-palette colour whenever the background is not itself a palette colour |
| Shapes.GenericShape.constructor | src/main/java/de/neemann/digital/draw/shapes/GenericShape.java:84-94 | stores the description, normalises the label, symmetric iff one output |
| Shapes.GenericShape.WithDefaultWidth | src/main/java/de/neemann/digital/draw/shapes/GenericShape.java:70-72 | as above with the default width |
| Shapes.GenericShape.Plain | src/main/java/de/neemann/digital/draw/shapes/GenericShape.java:57-59 | no label, no pin labels, default width |
| Shapes.GenericShape.Invert | src/main/java/de/neemann/digital/draw/shapes/GenericShape.java:103-106 | sets the output inversion, nothing else |
| Shapes.GenericShape.SetTopBottomBorder | src/main/java/de/neemann/digital/draw/shapes/GenericShape.java:114-117 | sets the border, nothing else |
| Shapes.GenericShape.SetColor | src/main/java/de/neemann/digital/draw/shapes/GenericShape.java:125-129 | a null colour keeps the current one |
| Shapes.GenericShape.SetInverterConfig | src/main/java/de/neemann/digital/draw/shapes/GenericShape.java:320-326 | an empty configuration is stored as none |
| Shapes.GenericShape.SetWide | src/main/java/de/neemann/digital/draw/shapes/GenericShape.java:334-338 | a wide shape is one raster wider |
| Shapes.GenericShape.GetPins | src/main/java/de/neemann/digital/draw/shapes/GenericShape.java:132-137 | the first call builds and caches the layout of the current state; later calls return the cache |
| Shapes.GenericShape.Bottom | src/main/java/de/neemann/digital/draw/shapes/GenericShape.java:206-209 | for a shape as the constructor sets it up, no pin lies below the bottom edge |
| Shapes.GenericShape.Box | src/main/java/de/neemann/digital/draw/shapes/GenericShape.java:211-215 | four corners from the top border to the bottom edge |

## Left out

- Swing and AWT rendering: painting, layout, borders, fonts, cell renderers, the
  `drawTo` outline style, `getContrastText`, `darker()`, pin labels and the label
  text. They draw and compute nothing the model states.
- The file system and `IOException`. The shortcut file is a `ConfigFile` object
  whose lines are absent or given, and a failed write is not modelled.
- The 200 ms focus-loss timer of the sidebar field. `FocusLost` takes as a
  parameter whether focus came back in time.
- `LineBreaker` in `setToolTip`. It is the `breakLines` function parameter.
- `KeyStroke.getKeyStroke(String)` and `KeyEvent.getKeyText`. They are function
  parameters, so the model does not pin down which strings Swing parses.
- The `matches(".*F\\d+$")` test in `parseShortcut`. It has an empty body and
  changes nothing.
- `String.toLowerCase`, `toUpperCase` and `trim`: only ASCII case folding is
  modelled, with no locale rules. Java `char` is a Dafny `char`, with no
  UTF-16 surrogate handling.
- `Shortcuts.DefaultIdsUnique` covers ids only. That the default ids and
  shortcuts contain no `=` and are trimmed is assumed by the round-trip lemmas
  as a precondition. It is not proved for the table.
- `KeyFormat.ParseFormat` and `KeyFormat.FormatInjective` require a key text
  that cannot be mistaken for a modifier prefix. They say nothing about key
  texts such as "Ctrl+X" that `getKeyText` is never known to return.
- `ToolTips.ToolTipAction.SetAcceleratorCtrlPlus` takes the key code directly.
  The widening of a `char` to a key code in `KeyStroke.getKeyStroke(char, int)`
  is not modelled.
- `ToolTips.ToolTipAction.NoTextToolTip`: with a provider that returns an HTML
  tip, the accelerator is appended after `</html>`. This is modelled as written,
  but only its nullness and the `<html>` start are stated.
- `ToolTips.ToolTipAction.EnableAcceleratorIn` returns an error where the source
  throws a `RuntimeException`. The action map entry is not modelled.
- The icon is an opaque integer handle. `putValue` and the other `Action`
  properties are left out, as are `createJMenuItem` and the enabled-state
  chaining of the `ToolTipAction` subclasses.
- `Shapes` uses unbounded integers for pin coordinates. Java `int` overflow
  would need inputs or widths around 10^8 and is not modelled.
- `Shapes.GenericShape.GetPins` keeps its cache when a later setter changes the
  state, as the source does. The model states this but does not call it a
  fault.
- `Shapes.GenericShape.Bottom` states its bound only for a shape whose symmetry
  follows its output count and whose border is non-negative. These are the
  conditions the constructors and the default border establish.
- `Shapes.FillColor`, `Shapes.Fill` and `Shapes.BoxFill` compare colours
  without alpha: `Color` has red, green and blue only. Java's `Color.equals`
  compares the alpha channel too, so a translucent white is an explicit colour
  in the source but white here. The same applies to the background test.
- `isDarkMode` reads the selected colour scheme, and the model passes the
  background colour instead. `UIManager.getColor("ToolTip.foreground")` is the
  `fg` parameter.
- The two searches insert by `circuitComponent.setPartToInsert` followed by
  `insertHistory.add`. Each attempt is modelled as appending to an `inserted`
  sequence: the component when its description loads, the error message
  naming it when `getDescription` throws `IOException`. Whether the
  description loads is the `describable` parameter. The `VisualElement` built
  from the description, its position and the insert history are not modelled.
- `JList.locationToIndex` is the `index` parameter of `Click` and `Hover` in
  both searches. It gives the nearest row, so a click below the last row picks
  the last row, and -1 only for an empty list. The contracts also cover -1 for
  a non-empty list, which Swing does not produce.
- `ShortcutConfig.RoundTrip` takes the file as its sequence of lines. A key or
  value with a line break inside would be written by `println` and read back by
  `readLine` as two lines. The round trip does not cover such bindings:
  `ShortcutConfig.WellFormedKey` does not exclude line breaks.
- `Ranking.RankedDistinct` assumes a catalog list without repeats. Catalog
  entries are values, so two leaves with equal fields are one value here. In
  Java they are two objects. That the library holds each component once is not
  derived from the tree.

## Findings

| source | as written | input that shows it | evidently intended | confidence | as-written member | corrected member |
|---|---|---|---|---|---|---|
| src/main/java/de/neemann/digital/draw/graphics/ComponentColors.java:87-91 | `embeddedCounter % EMBEDDED_PALETTE.length` on an `int` counter that `++` wraps to `Integer.MIN_VALUE` after 2^31 calls; Java's `%` is then negative | call number 2^31 + 2 (counter -2^31 + 1) computes index -15, and the array access throws | cycle through the 16 entries forever (non-negative index, e.g. `Math.floorMod`) | not executed | ComponentColors.AsWrittenOverflows | ComponentColors.CycleAcrossOverflow |
