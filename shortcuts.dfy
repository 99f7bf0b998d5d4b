/**
 * The keyboard-shortcut registry and its dialog: the process-wide map of
 * custom bindings loaded once from the home-directory file, the table of
 * actions with their default and current shortcuts, saving (a binding is
 * kept only where it differs from the default), resetting, and the cell
 * editor that captures a key press.
 */
module Shortcuts {
  import opened Wrappers
  import opened Text
  import opened Keys
  import opened LinkedMap
  import opened ShortcutConfig
  import opened KeyFormat

  /** An action of the table with its default binding. */
  datatype Action = Action(actionId: string, description: string, defaultShortcut: string)

  /** A table row: the action plus the shortcut it currently has. */
  datatype Entry = Entry(actionId: string, description: string, defaultShortcut: string, currentShortcut: string)

  /** The actions listed by `createDefaultEntries`, in their order. */
  const DefaultActions: seq<Action> := [
    Action("file.new", "New File", "Ctrl+N"),
    Action("file.open", "Open File", "Ctrl+O"),
    Action("file.save", "Save File", "Ctrl+S"),
    Action("edit.undo", "Undo", "Ctrl+Z"),
    Action("edit.redo", "Redo", "Ctrl+Y"),
    Action("edit.copy", "Copy", "Ctrl+C"),
    Action("edit.cut", "Cut", "Ctrl+X"),
    Action("edit.paste", "Paste", "Ctrl+V"),
    Action("edit.delete", "Delete Selection", "Delete"),
    Action("edit.selectAll", "Select All", "Ctrl+A"),
    Action("edit.rotate", "Rotate Component", "R"),
    Action("edit.find", "Find Elements", "Ctrl+F"),
    Action("edit.flipWire", "Flip Wire Direction", "F"),
    Action("edit.splitWire", "Split Wire", "S"),
    Action("edit.escape", "Cancel / Deselect", "Escape"),
    Action("view.zoomIn", "Zoom In", "Ctrl+Plus"),
    Action("view.zoomOut", "Zoom Out", "Ctrl+Minus"),
    Action("view.fit", "Fit to Window", "F1"),
    Action("view.treeToggle", "Toggle Tree View", "F5"),
    Action("view.presentation", "Presentation Mode", "F4"),
    Action("sim.start", "Start/Stop Simulation", "Space"),
    Action("sim.microStep", "Micro Step", "V"),
    Action("sim.runToBreakMicro", "Run to Break (Micro)", "B"),
    Action("sim.runMicro", "Run Micro Mode", "G"),
    Action("sim.fastRun", "Fast Run to Break", "F7"),
    Action("sim.toggleClock", "Toggle Clock", "C"),
    Action("sim.showData", "Show Data Table", "F6"),
    Action("sim.runTests", "Run Tests", "F8"),
    Action("sim.runAllTests", "Run All Tests", "F11"),
    Action("tools.componentSearch", "Component Search", "F2"),
    Action("tools.insertLast", "Insert Last Component", "L"),
    Action("analysis.analyse", "Analyse Circuit", "F9")
  ]

  predicate UniqueIds(es: seq<Entry>) {
    forall i, j :: 0 <= i < j < |es| ==> es[i].actionId != es[j].actionId
  }

  /** No two default actions share an id. */
  lemma DefaultIdsUnique()
    ensures forall i, j :: 0 <= i < j < |DefaultActions| ==> DefaultActions[i].actionId != DefaultActions[j].actionId
  {
    DefaultIdsUniqueLow();
    DefaultIdsUniqueHigh();
    DefaultIdsUniqueAcross();
  }

  lemma DefaultIdsUniqueLow()
    ensures forall i, j :: 0 <= i < j < 16 ==> DefaultActions[i].actionId != DefaultActions[j].actionId
  {
  }

  lemma DefaultIdsUniqueHigh()
    ensures forall i, j :: 16 <= i < j < |DefaultActions| ==> DefaultActions[i].actionId != DefaultActions[j].actionId
  {
  }

  lemma DefaultIdsUniqueAcross()
    ensures forall i, j :: 0 <= i < 16 <= j < |DefaultActions| ==> DefaultActions[i].actionId != DefaultActions[j].actionId
  {
  }

  /** A row as the `ShortcutEntry` constructor builds it: the custom binding if there is one, the default otherwise. */
  function NewEntry(a: Action, custom: Bindings): (e: Entry)
    ensures e.actionId == a.actionId && e.description == a.description && e.defaultShortcut == a.defaultShortcut
    ensures HasKey(custom, a.actionId) ==> Get(custom, a.actionId) == Some(e.currentShortcut)
    ensures !HasKey(custom, a.actionId) ==> e.currentShortcut == a.defaultShortcut
  {
    Entry(a.actionId, a.description, a.defaultShortcut, GetOrDefault(custom, a.actionId, a.defaultShortcut))
  }

  function NewEntries(actions: seq<Action>, custom: Bindings): (es: seq<Entry>)
    ensures |es| == |actions|
  {
    seq(|actions|, i requires 0 <= i < |actions| => NewEntry(actions[i], custom))
  }

  /** The action a row belongs to. */
  function ActionOf(e: Entry): Action {
    Action(e.actionId, e.description, e.defaultShortcut)
  }

  function ActionsOf(es: seq<Entry>): (r: seq<Action>)
    ensures |r| == |es|
  {
    seq(|es|, i requires 0 <= i < |es| => ActionOf(es[i]))
  }

  // ---- saving ----

  /** The update `saveShortcuts` makes for one row: keep a differing shortcut, drop one equal to the default. */
  function SaveEntry(m: Bindings, e: Entry): Bindings {
    if e.currentShortcut != e.defaultShortcut then Put(m, e.actionId, e.currentShortcut)
    else Remove(m, e.actionId)
  }

  /** The rows applied in order. */
  function SaveEntries(m: Bindings, es: seq<Entry>): Bindings
    decreases |es|
  {
    if es == [] then m else SaveEntry(SaveEntries(m, es[..|es| - 1]), es[|es| - 1])
  }

  /** What the map holds for a row after it is saved. */
  function Saved(e: Entry): Option<string> {
    if e.currentShortcut != e.defaultShortcut then Some(e.currentShortcut) else None
  }

  /** After saving, every row's id holds exactly that row's non-default shortcut. */
  lemma {:induction false} SaveEntriesHit(m: Bindings, es: seq<Entry>, i: nat)
    requires UniqueIds(es) && i < |es|
    ensures Get(SaveEntries(m, es), es[i].actionId) == Saved(es[i])
    decreases |es|
  {
    var init := es[..|es| - 1];
    var last := es[|es| - 1];
    if i < |es| - 1 {
      assert init[i] == es[i];
      assert UniqueIds(init);
      SaveEntriesHit(m, init, i);
      assert last.actionId != es[i].actionId;
    }
  }

  /** Saving leaves the ids of no row alone, such as bindings read from the file for unknown actions. */
  lemma {:induction false} SaveEntriesMiss(m: Bindings, es: seq<Entry>, k: string)
    requires forall i :: 0 <= i < |es| ==> es[i].actionId != k
    ensures Get(SaveEntries(m, es), k) == Get(m, k)
    decreases |es|
  {
    if es != [] {
      var init := es[..|es| - 1];
      assert forall i :: 0 <= i < |init| ==> init[i].actionId != k by {
        forall i | 0 <= i < |init| ensures init[i].actionId != k {
          assert init[i] == es[i];
        }
      }
      SaveEntriesMiss(m, init, k);
    }
  }

  /** Saving keeps the map free of duplicate keys. */
  lemma {:induction false} SaveEntriesUnique(m: Bindings, es: seq<Entry>)
    requires UniqueKeys(m)
    ensures UniqueKeys(SaveEntries(m, es))
    decreases |es|
  {
    if es != [] {
      var init := es[..|es| - 1];
      var last := es[|es| - 1];
      SaveEntriesUnique(m, init);
      if last.currentShortcut != last.defaultShortcut {
        PutUnique(SaveEntries(m, init), last.actionId, last.currentShortcut);
      }
    }
  }

  /** With file-safe ids and trimmed shortcuts, the saved map can be written and read back. */
  lemma {:induction false} SaveEntriesWellFormed(m: Bindings, es: seq<Entry>)
    requires WellFormed(m)
    requires forall i :: 0 <= i < |es| ==> WellFormedKey(es[i].actionId) && IsTrimmed(es[i].currentShortcut)
    ensures WellFormed(SaveEntries(m, es))
    decreases |es|
  {
    SaveEntriesUnique(m, es);
    if es != [] {
      var init := es[..|es| - 1];
      var last := es[|es| - 1];
      assert forall i :: 0 <= i < |init| ==> WellFormedKey(init[i].actionId) && IsTrimmed(init[i].currentShortcut) by {
        forall i | 0 <= i < |init| ensures WellFormedKey(init[i].actionId) && IsTrimmed(init[i].currentShortcut) {
          assert init[i] == es[i];
        }
      }
      SaveEntriesWellFormed(m, init);
      var before := SaveEntries(m, init);
      var after := SaveEntries(m, es);
      if last.currentShortcut != last.defaultShortcut {
        PutBindings(before, last.actionId, last.currentShortcut);
        forall i | 0 <= i < |after| ensures WellFormedBinding(after[i]) {
          assert after[i] in after;
        }
      } else {
        forall i | 0 <= i < |after| ensures WellFormedBinding(after[i]) {
          assert after[i] in after;
          assert after[i] in before;
        }
      }
    }
  }

  /** Re-opening the dialog in the same session shows every row as it was saved. */
  lemma ReopenShowsSaved(m: Bindings, es: seq<Entry>)
    requires UniqueIds(es)
    ensures NewEntries(ActionsOf(es), SaveEntries(m, es)) == es
  {
    var r := NewEntries(ActionsOf(es), SaveEntries(m, es));
    forall i | 0 <= i < |es| ensures r[i] == es[i] {
      SaveEntriesHit(m, es, i);
    }
  }

  /** Starting from a fresh session, the saved file is read back into the very same map. */
  lemma SavedFileReadBack(m: Bindings, es: seq<Entry>)
    requires WellFormed(m)
    requires forall i :: 0 <= i < |es| ==> WellFormedKey(es[i].actionId) && IsTrimmed(es[i].currentShortcut)
    ensures ParseLines([], Render(SaveEntries(m, es))) == SaveEntries(m, es)
  {
    SaveEntriesWellFormed(m, es);
    RoundTrip(SaveEntries(m, es));
  }

  /** A row reset to its default. */
  function ResetEntry(e: Entry): Entry {
    e.(currentShortcut := e.defaultShortcut)
  }

  /** Saving rows that all show their defaults into an empty map leaves it empty. */
  lemma {:induction false} SaveDefaultsEmpty(es: seq<Entry>)
    requires forall i :: 0 <= i < |es| ==> es[i].currentShortcut == es[i].defaultShortcut
    ensures SaveEntries([], es) == []
    decreases |es|
  {
    if es != [] {
      var init := es[..|es| - 1];
      assert forall i :: 0 <= i < |init| ==> init[i].currentShortcut == init[i].defaultShortcut by {
        forall i | 0 <= i < |init| ensures init[i].currentShortcut == init[i].defaultShortcut {
          assert init[i] == es[i];
        }
      }
      SaveDefaultsEmpty(init);
    }
  }

  /** One row more of the save loop. */
  lemma SaveStep(m: Bindings, es: seq<Entry>, i: nat)
    requires i < |es|
    ensures SaveEntries(m, es[..i + 1]) == SaveEntry(SaveEntries(m, es[..i]), es[i])
  {
    assert es[..i + 1][..i] == es[..i];
  }

  // ---- the configuration file and the process-wide registry ----

  /** `~/.digital-shortcuts.cfg`: absent, or its lines. */
  class ConfigFile {
    var lines: Option<seq<string>>

    constructor(lines: Option<seq<string>>)
      ensures this.lines == lines
    {
      this.lines := lines;
    }
  }

  /** The static part of `ShortcutDialog`: the custom bindings and whether the file has been read. */
  class Registry {
    var custom: Bindings
    var loaded: bool

    constructor()
      ensures custom == [] && !loaded
    {
      custom := [];
      loaded := false;
    }

    ghost predicate Valid()
      reads this
    {
      WellFormed(custom)
    }

    /** `loadShortcuts`: reads the file the first time only; a missing file leaves the map as it is. */
    method Load(file: ConfigFile)
      requires loaded || Valid()
      modifies this
      ensures loaded && (old(Valid()) ==> Valid())
      ensures old(loaded) ==> custom == old(custom)
      ensures !old(loaded) && file.lines.None? ==> custom == old(custom)
      ensures !old(loaded) && file.lines.Some? ==> custom == ParseLines(old(custom), file.lines.value)
    {
      if loaded {
        return;
      }
      loaded := true;
      if file.lines.None? {
        return;
      }
      var lines := file.lines.value;
      var m0 := custom;
      var m := m0;
      var i := 0;
      while i < |lines|
        invariant 0 <= i <= |lines|
        invariant ParseLines(m, lines[i..]) == ParseLines(m0, lines)
        invariant WellFormed(m)
        modifies {}
      {
        LoadStep(m, lines, i);
        var b := ParseLine(lines[i]);
        if b.Some? {
          m := Put(m, b.value.key, b.value.value);
        }
        i := i + 1;
      }
      assert lines[i..] == [];
      custom := m;
    }

    /** `getShortcut`: the custom binding for the action, or the given default. */
    method GetShortcut(file: ConfigFile, actionId: string, defaultShortcut: string) returns (s: string)
      requires loaded || Valid()
      modifies this
      ensures loaded && (old(Valid()) ==> Valid())
      ensures old(loaded) ==> custom == old(custom)
      ensures !old(loaded) && file.lines.None? ==> custom == old(custom)
      ensures !old(loaded) && file.lines.Some? ==> custom == ParseLines(old(custom), file.lines.value)
      ensures HasKey(custom, actionId) ==> Get(custom, actionId) == Some(s)
      ensures !HasKey(custom, actionId) ==> s == defaultShortcut
    {
      Load(file);
      s := GetOrDefault(custom, actionId, defaultShortcut);
    }
  }

  // ---- the dialog ----

  const PressAKey := "Press a key..."

  class ShortcutDialog {
    const registry: Registry
    const file: ConfigFile
    var entries: seq<Entry>
    var modified: bool
    /** The row whose shortcut cell is being edited, if any. */
    var editingRow: Option<nat>
    /** The cell editor's `currentValue` and the text its field shows. */
    var editorValue: string
    var fieldText: string
    var disposed: bool

    ghost predicate Valid()
      reads this, registry
    {
      && UniqueKeys(registry.custom)
      && registry.loaded
      && ActionsOf(entries) == DefaultActions
      && (editingRow.Some? ==> editingRow.value < |entries|)
    }

    /** Loads the registry, then builds one row per default action. */
    constructor(registry: Registry, file: ConfigFile)
      requires registry.Valid() || (registry.loaded && UniqueKeys(registry.custom))
      modifies registry
      ensures this.registry == registry && this.file == file
      ensures Valid() && (old(registry.Valid()) ==> registry.Valid())
      ensures !old(registry.loaded) && file.lines.Some? ==> registry.custom == ParseLines(old(registry.custom), file.lines.value)
      ensures (old(registry.loaded) || file.lines.None?) ==> registry.custom == old(registry.custom)
      ensures entries == NewEntries(DefaultActions, registry.custom)
      ensures !modified && editingRow.None? && !disposed
    {
      registry.Load(file);
      this.registry := registry;
      this.file := file;
      entries := NewEntries(DefaultActions, registry.custom);
      modified := false;
      editingRow := None;
      editorValue := "";
      fieldText := "";
      disposed := false;
      new;
      assert ActionsOf(entries) == DefaultActions;
    }

    function RowCount(): (n: nat)
      reads this, registry
      requires Valid()
      ensures n == |DefaultActions|
    {
      |entries|
    }

    /** Column 0 shows the description, any other column the current shortcut. */
    function GetValueAt(row: nat, col: int): (v: string)
      reads this
      requires row < |entries|
      ensures col == 0 ==> v == entries[row].description
      ensures col != 0 ==> v == entries[row].currentShortcut
    {
      if col == 0 then entries[row].description else entries[row].currentShortcut
    }

    /** Only the shortcut column can be edited. */
    predicate IsCellEditable(row: nat, col: int) {
      col == 1
    }

    /** `setValueAt`: a value for the shortcut column replaces the row's shortcut and marks the dialog modified. */
    method SetValueAt(value: string, row: nat, col: int)
      requires Valid() && row < |entries|
      modifies this
      ensures Valid()
      ensures col == 1 ==> entries == old(entries)[row := old(entries)[row].(currentShortcut := value)] && modified
      ensures col != 1 ==> entries == old(entries) && modified == old(modified)
      ensures editingRow == old(editingRow) && editorValue == old(editorValue) && fieldText == old(fieldText)
      ensures disposed == old(disposed)
    {
      if col == 1 {
        entries := entries[row := entries[row].(currentShortcut := value)];
        modified := true;
        assert forall i :: 0 <= i < |entries| ==> ActionOf(entries[i]) == ActionOf(old(entries)[i]);
      }
    }

    /** `saveShortcuts`: folds the rows into the registry, then rewrites the file with the header and every binding. */
    method Save()
      requires Valid()
      modifies registry, file
      ensures Valid()
      ensures registry.custom == SaveEntries(old(registry.custom), entries)
      ensures file.lines == Some(Render(registry.custom))
      ensures registry.loaded == old(registry.loaded)
    {
      var es := entries;
      var m0 := registry.custom;
      var m := m0;
      var i := 0;
      while i < |es|
        invariant 0 <= i <= |es|
        invariant m == SaveEntries(m0, es[..i])
        invariant UniqueKeys(m)
        modifies {}
      {
        SaveStep(m0, es, i);
        var e := es[i];
        if e.currentShortcut != e.defaultShortcut {
          PutUnique(m, e.actionId, e.currentShortcut);
          m := Put(m, e.actionId, e.currentShortcut);
        } else {
          m := Remove(m, e.actionId);
        }
        i := i + 1;
      }
      assert es[..i] == es;
      registry.custom := m;
      file.lines := Some(Render(m));
    }

    /** `resetAllDefaults`: every row back to its default, the map cleared, and a file with only the header written. */
    method ResetAllDefaults()
      requires Valid()
      modifies this, registry, file
      ensures Valid()
      ensures |entries| == |old(entries)| && forall i :: 0 <= i < |entries| ==> entries[i] == ResetEntry(old(entries)[i])
      ensures registry.custom == [] && file.lines == Some(Header)
      ensures modified && registry.loaded == old(registry.loaded)
      ensures editingRow == old(editingRow) && disposed == old(disposed)
    {
      var es := entries;
      var i := 0;
      while i < |es|
        invariant 0 <= i <= |es| == |entries|
        invariant forall j :: 0 <= j < i ==> es[j] == ResetEntry(entries[j])
        invariant forall j :: i <= j < |es| ==> es[j] == entries[j]
        modifies {}
      {
        es := es[i := ResetEntry(es[i])];
        i := i + 1;
      }
      assert ActionsOf(es) == ActionsOf(entries);
      entries := es;
      registry.custom := [];
      modified := true;
      SaveDefaultsEmpty(entries);
      Save();
      assert RenderLines([]) == [];
      assert Header + [] == Header;
    }

    /** The Close button: saves when something was changed, then disposes of the dialog. */
    method Close()
      requires Valid()
      modifies this, registry, file
      ensures Valid() && disposed && entries == old(entries)
      ensures old(modified) ==> (registry.custom == SaveEntries(old(registry.custom), entries)
                                 && file.lines == Some(Render(registry.custom)))
      ensures !old(modified) ==> registry.custom == old(registry.custom) && file.lines == old(file.lines)
    {
      if modified {
        Save();
      }
      disposed := true;
    }

    /** `getTableCellEditorComponent`: editing starts from the row's shortcut and the field asks for a key. */
    method StartEditing(row: nat)
      requires Valid() && row < |entries|
      modifies this
      ensures Valid()
      ensures editingRow == Some(row) && editorValue == entries[row].currentShortcut && fieldText == PressAKey
      ensures entries == old(entries) && modified == old(modified) && disposed == old(disposed)
    {
      editingRow := Some(row);
      editorValue := entries[row].currentShortcut;
      fieldText := PressAKey;
    }

    /**
     * A key pressed in the editing field: a modifier key alone does nothing,
     * Escape cancels the edit, any other key becomes the row's shortcut.
     */
    method EditorKeyPressed(ks: KeyStroke, keyText: KeyCode -> string)
      requires Valid() && editingRow.Some?
      modifies this
      ensures Valid() && disposed == old(disposed)
      ensures CaptureKey(ks, keyText) == Ignored ==>
        entries == old(entries) && editingRow == old(editingRow) && editorValue == old(editorValue)
        && fieldText == old(fieldText) && modified == old(modified)
      ensures CaptureKey(ks, keyText) == Cancelled ==>
        entries == old(entries) && editingRow.None? && modified == old(modified)
        && editorValue == old(editorValue) && fieldText == old(fieldText)
      ensures CaptureKey(ks, keyText).Committed? ==>
        var b := FormatKeyStroke(Some(ks), keyText);
        var row := old(editingRow).value;
        && entries == old(entries)[row := old(entries)[row].(currentShortcut := b)]
        && editingRow.None? && editorValue == b && fieldText == b && modified
    {
      var row := editingRow.value;
      match CaptureKey(ks, keyText)
      case Ignored =>
      case Cancelled =>
        editingRow := None;
      case Committed(b) =>
        editorValue := b;
        fieldText := b;
        editingRow := None;
        SetValueAt(editorValue, row, 1);
    }
  }
}
