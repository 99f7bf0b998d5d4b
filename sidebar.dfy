/**
 * The sidebar search field with its autocomplete drop-down
 * (AutocompleteSearchField): typing ranks the library's leaf components,
 * the keyboard moves a cursor through the drop-down, Enter or a click
 * inserts the chosen component and clears the field.
 */
module Sidebar {
  import opened Text
  import opened Keys
  import opened Catalog
  import opened Ranking
  import opened Cursor

  /** At most this many rows are listed. */
  const MaxResults: nat := 12
  /** Pixel height of one row. */
  const CellHeight: nat := 34

  /** Height of the drop-down window for `size` rows: one row each, plus a 4-pixel border. */
  function PopupHeight(size: nat): (h: nat)
    ensures size > 0 ==> CellHeight + 4 <= h
    ensures h <= MaxResults * CellHeight + 4
    ensures size <= MaxResults ==> h == size * CellHeight + 4
  {
    (if size < MaxResults then size else MaxResults) * CellHeight + 4
  }

  /** What the drop-down lists for a given field text: nothing for blank text, otherwise the ranking. */
  function Results(leaves: seq<LibraryNode>, text: string): seq<LibraryNode> {
    var q := Normalize(text);
    if q == [] then [] else Ranked(leaves, q, MaxResults)
  }

  /** Every listed row is a component that matches the trimmed, lower-cased text, and there are at most twelve. */
  lemma ResultsMatch(leaves: seq<LibraryNode>, text: string)
    ensures |Results(leaves, text)| <= MaxResults
    ensures forall n :: n in Results(leaves, text) ==> n in leaves && Matches(n, Normalize(text))
    ensures Normalize(text) == [] ==> Results(leaves, text) == []
  {
    var q := Normalize(text);
    if q != [] {
      forall n | n in Results(leaves, text) ensures n in leaves && Matches(n, q) {
        RankedMatch(leaves, q, MaxResults, n);
      }
    }
  }

  /** An empty field lists nothing. */
  lemma EmptyTextNoResults(leaves: seq<LibraryNode>)
    ensures Results(leaves, "") == []
  {
    assert Trim("") == [];
    assert Normalize("") == [];
  }

  /** Every node of a flattened tree is a visible unique leaf. */
  lemma NodesSelectable(ts: seq<Tagged>)
    requires forall t :: t in ts ==> Selectable(t.node)
    ensures forall n :: n in Nodes(ts) ==> Selectable(n)
  {
    forall n | n in Nodes(ts) ensures Selectable(n) {
      var i :| 0 <= i < |ts| && Nodes(ts)[i] == n;
      assert ts[i] in ts;
    }
  }

  class AutocompleteSearchField {
    /** The visible unique leaves of the library, in tree order. */
    const leaves: seq<LibraryNode>
    /** Each leaf's category label: the translated name of the group holding it. */
    const categories: map<LibraryNode, string>
    /** Whether the field sits in a window on screen; without one the drop-down cannot open. */
    const attached: bool

    var text: string
    var results: seq<LibraryNode>
    var selected: int
    var popupVisible: bool
    var popupHeight: nat
    /**
     * Whether `getDescription` succeeds for a node. It reads the component's
     * definition and throws `IOException` when that fails.
     */
    const describable: LibraryNode -> bool
    /** The outcome of every insertion, oldest first: a component handed to the circuit, or an error shown. */
    var inserted: seq<Insertion>

    ghost predicate Valid()
      reads this
    {
      && (forall n :: n in leaves ==> Selectable(n))
      && results == Results(leaves, text)
      && ValidSelection(selected, |results|)
      && (popupVisible ==> attached && |results| > 0 && popupHeight == PopupHeight(|results|))
    }

    /** Collects the leaves of `root` once, with an empty field and a closed drop-down. */
    constructor (root: LibraryNode, attached: bool, describable: LibraryNode -> bool)
      ensures Valid()
      ensures leaves == Nodes(Flatten(root, "")) && categories == Record(map[], Flatten(root, ""))
      ensures this.attached == attached
      ensures text == "" && results == [] && selected == NoSelection && !popupVisible && inserted == []
    {
      var ls, cs := CollectLeafNodes(root, [], map[], "");
      NodesSelectable(Flatten(root, ""));
      leaves := ls;
      categories := cs;
      this.attached := attached;
      text := "";
      results := [];
      selected := NoSelection;
      popupVisible := false;
      popupHeight := 0;
      this.describable := describable;
      inserted := [];
      new;
      EmptyTextNoResults(leaves);
    }

    /** Opens the drop-down sized to the current rows, when the field is on screen. */
    method ShowPopup()
      modifies this
      ensures popupVisible == (old(popupVisible) || attached)
      ensures popupHeight == if attached then PopupHeight(|results|) else old(popupHeight)
      ensures text == old(text) && results == old(results) && selected == old(selected) && inserted == old(inserted)
    {
      if attached {
        popupVisible := true;
        popupHeight := PopupHeight(|results|);
      }
    }

    /** Re-ranks after every edit of the text; selects the first row and opens the drop-down when there is one. */
    method OnTextChanged()
      requires forall n :: n in leaves ==> Selectable(n)
      modifies this
      ensures Valid()
      ensures results == Results(leaves, text)
      ensures selected == (if results == [] then NoSelection else 0)
      ensures popupVisible == (results != [] && attached)
      ensures text == old(text) && inserted == old(inserted)
    {
      var q := Normalize(text);
      if q == [] {
        results := [];
        selected := NoSelection;
        popupVisible := false;
        return;
      }
      results := Rank(leaves, q, MaxResults);
      if |results| > 0 {
        selected := 0;
        popupVisible := false;
        ShowPopup();
      } else {
        selected := NoSelection;
        popupVisible := false;
      }
    }

    /** Replaces the field text; the document listener re-ranks. */
    method SetText(t: string)
      requires Valid()
      modifies this
      ensures Valid()
      ensures text == t && results == Results(leaves, t)
      ensures selected == (if results == [] then NoSelection else 0)
      ensures popupVisible == (results != [] && attached)
      ensures inserted == old(inserted)
    {
      text := t;
      OnTextChanged();
    }

    /** Hands a component to the circuit, when it is a unique leaf. */
    method InsertComponent(node: LibraryNode)
      modifies this
      ensures inserted == old(inserted) + Attempt(node, describable)
      ensures text == old(text) && results == old(results) && selected == old(selected)
      ensures popupVisible == old(popupVisible) && popupHeight == old(popupHeight)
    {
      if node.Leaf? && node.unique {
        if describable(node) {
          inserted := inserted + [Inserted(node)];
        } else {
          inserted := inserted + [LoadFailed(node.name)];
        }
      }
    }

    /** Inserts the listed component at `index`, closes the drop-down and empties the field. */
    method Choose(index: nat)
      requires Valid() && index < |results|
      modifies this
      ensures Valid()
      ensures inserted == old(inserted) + Attempt(old(results)[index], describable)
      ensures text == "" && results == [] && selected == NoSelection && !popupVisible
    {
      var node := results[index];
      ResultsMatch(leaves, text);
      assert node in leaves;
      InsertComponent(node);
      popupVisible := false;
      EmptyTextNoResults(leaves);
      SetText("");
    }

    /**
     * A key pressed in the field. With the drop-down closed only Down acts
     * (it opens the list on its first row); with it open Down and Up move
     * the cursor, Enter inserts the selected row and Escape closes the list.
     */
    method KeyPressed(key: KeyCode)
      requires Valid()
      modifies this
      ensures Valid()
      ensures !old(popupVisible) ==>
        if key == VkDown && |old(results)| > 0 then
          selected == 0 && popupVisible == attached && text == old(text) && inserted == old(inserted)
        else
          selected == old(selected) && popupVisible == old(popupVisible) && text == old(text) && inserted == old(inserted)
      ensures old(popupVisible) && key == VkDown ==>
        selected == SidebarDown(old(selected), |old(results)|) && popupVisible && text == old(text) && inserted == old(inserted)
      ensures old(popupVisible) && key == VkUp ==>
        selected == SidebarUp(old(selected), |old(results)|) && popupVisible && text == old(text) && inserted == old(inserted)
      ensures old(popupVisible) && key == VkEnter && old(selected) >= 0 ==>
        inserted == old(inserted) + Attempt(old(results)[old(selected)], describable) && text == "" && results == [] && !popupVisible
      ensures old(popupVisible) && key == VkEnter && old(selected) < 0 ==>
        popupVisible && selected == old(selected) && text == old(text) && inserted == old(inserted)
      ensures old(popupVisible) && key == VkEscape ==>
        !popupVisible && selected == old(selected) && text == old(text) && inserted == old(inserted)
      ensures old(popupVisible) && !(key in {VkDown, VkUp, VkEnter, VkEscape}) ==>
        popupVisible && selected == old(selected) && text == old(text) && inserted == old(inserted)
    {
      if !popupVisible {
        if key == VkDown && |results| > 0 {
          ShowPopup();
          selected := 0;
        }
        return;
      }
      match key {
        case VkDown => selected := SidebarDown(selected, |results|);
        case VkUp => selected := SidebarUp(selected, |results|);
        case VkEnter =>
          if selected >= 0 {
            Choose(selected);
          }
        case VkEscape => popupVisible := false;
        case _ =>
      }
    }

    /**
     * A click inserts the component of row `index`, Swing's `locationToIndex`
     * of the pointer: the nearest row, so a click below the last row picks the
     * last row, and -1 only for an empty list.
     */
    method Click(index: int)
      requires Valid() && -1 <= index < |results|
      modifies this
      ensures Valid()
      ensures index >= 0 ==> inserted == old(inserted) + Attempt(old(results)[index], describable) && text == "" && results == [] && !popupVisible
      ensures index < 0 ==> unchanged(this)
    {
      if index >= 0 {
        Choose(index);
      }
    }

    /** Moving the pointer selects row `index`, the nearest row as `locationToIndex` gives it (-1 only for an empty list). */
    method Hover(index: int)
      requires Valid() && -1 <= index < |results|
      modifies this
      ensures Valid()
      ensures selected == (if index >= 0 then index else old(selected))
      ensures text == old(text) && popupVisible == old(popupVisible) && inserted == old(inserted)
    {
      if index >= 0 && index != selected {
        selected := index;
      }
    }

    /** Focus returning to the field re-opens the drop-down when the field holds text that found rows. */
    method FocusGained()
      requires Valid()
      modifies this
      ensures Valid()
      ensures popupVisible == (old(popupVisible) || (Trim(text) != [] && |results| > 0 && attached))
      ensures text == old(text) && selected == old(selected) && inserted == old(inserted)
    {
      if Trim(text) != [] && |results| > 0 {
        ShowPopup();
      }
    }

    /**
     * Focus leaving the field closes the drop-down after a short delay,
     * unless the field has taken focus back by then (`refocused`).
     */
    method FocusLost(refocused: bool)
      requires Valid()
      modifies this
      ensures Valid()
      ensures popupVisible == (old(popupVisible) && refocused)
      ensures text == old(text) && selected == old(selected) && inserted == old(inserted)
    {
      if !refocused {
        popupVisible := false;
      }
    }

    /** Moving, resizing, deactivating or iconifying the window closes the drop-down. */
    method WindowChanged()
      requires Valid()
      modifies this
      ensures Valid()
      ensures !popupVisible
      ensures text == old(text) && selected == old(selected) && inserted == old(inserted)
    {
      popupVisible := false;
    }

    /** The clear button empties the field and closes the drop-down. */
    method ClearButton()
      requires Valid()
      modifies this
      ensures Valid()
      ensures text == "" && results == [] && selected == NoSelection && !popupVisible
      ensures inserted == old(inserted)
    {
      EmptyTextNoResults(leaves);
      SetText("");
      popupVisible := false;
    }
  }
}
