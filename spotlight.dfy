/**
 * The spotlight-style search dialog (ComponentSearchDialog), opened by F2:
 * it lists the first ten components while the field is empty and the
 * ranking otherwise; Enter, a click, Escape or losing focus close it.
 */
module Spotlight {
  import opened Keys
  import opened Catalog
  import opened Ranking
  import opened Cursor
  import Sidebar

  /** At most this many rows are listed. */
  const MaxResults: nat := 10
  /** Pixel height of one row. */
  const RowHeight: nat := 38
  /** Fixed dialog width. */
  const DialogWidth: nat := 480

  /** Height after every re-listing: the search bar, the rows and a margin; room for one row when empty. */
  function FitHeight(size: nat): (h: nat)
    ensures size == 0 ==> h == 52 + RowHeight
    ensures 0 < size <= MaxResults ==> h == 52 + size * RowHeight + 6
    ensures size > MaxResults ==> h == 52 + MaxResults * RowHeight + 6
  {
    var rows := if size < MaxResults then size else MaxResults;
    if rows == 0 then 52 + RowHeight else 52 + rows * RowHeight + 6
  }

  /** Height set by `showDialog` itself, which has no special case for an empty list. */
  function ShowHeight(size: nat): (h: nat)
    ensures h == 52 + (if size < MaxResults then size else MaxResults) * RowHeight + 6
    ensures size > 0 ==> h == FitHeight(size)
    ensures size == 0 ==> h == 58 && h < FitHeight(size)
  {
    52 + (if size < MaxResults then size else MaxResults) * RowHeight + 6
  }

  /** What the dialog lists for a given field text. */
  function Listing(leaves: seq<LibraryNode>, text: string): seq<LibraryNode> {
    var q := Normalize(text);
    if q == [] then Take(leaves, MaxResults) else Ranked(leaves, q, MaxResults)
  }

  /** The empty-field listing is exactly the ranking for the empty query, so one formula covers both. */
  lemma ListingIsRanking(leaves: seq<LibraryNode>, text: string)
    ensures Listing(leaves, text) == Ranked(leaves, Normalize(text), MaxResults)
  {
    if Normalize(text) == [] {
      RankedEmptyQuery(leaves, MaxResults);
    }
  }

  /** Every listed row is one of the leaves. */
  lemma ListingInLeaves(leaves: seq<LibraryNode>, text: string, n: LibraryNode)
    requires n in Listing(leaves, text)
    ensures n in leaves
  {
    ListingIsRanking(leaves, text);
    RankedMatch(leaves, Normalize(text), MaxResults, n);
  }

  lemma TakeTake<T>(s: seq<T>, a: nat, b: nat)
    requires b <= a
    ensures Take(Take(s, a), b) == Take(s, b)
  {
  }

  /** For a non-blank text the dialog lists the first ten of the sidebar's twelve rows. */
  lemma ListingIsSidebarPrefix(leaves: seq<LibraryNode>, text: string)
    requires Normalize(text) != []
    ensures Listing(leaves, text) == Take(Sidebar.Results(leaves, text), MaxResults)
    ensures Listing(leaves, text) <= Sidebar.Results(leaves, text)
  {
    var q := Normalize(text);
    TakeTake(Tier(leaves, q, true) + Tier(leaves, q, false), Sidebar.MaxResults, MaxResults);
  }

  class ComponentSearchDialog {
    /** The visible unique leaves of the library, in tree order. */
    const leaves: seq<LibraryNode>
    /** Each leaf's category label. */
    const categories: map<LibraryNode, string>

    var text: string
    var results: seq<LibraryNode>
    var selected: int
    var visible: bool
    var height: nat
    /**
     * Whether `getDescription` succeeds for a node. It reads the component's
     * definition and throws `IOException` when that fails.
     */
    const describable: LibraryNode -> bool
    /** The outcome of every insertion, oldest first: a component handed to the circuit, or an error shown. */
    var inserted: seq<Insertion>
    /** Whether the list has been filled at least once; the constructor leaves it empty. */
    ghost var populated: bool

    ghost predicate Valid()
      reads this
    {
      && (forall n :: n in leaves ==> Selectable(n))
      && ValidSelection(selected, |results|)
      && (results != [] ==> selected >= 0)
      && (populated ==> results == Listing(leaves, text))
      && (!populated ==> results == [] && text == "" && !visible)
    }

    constructor (root: LibraryNode, describable: LibraryNode -> bool)
      ensures Valid()
      ensures leaves == Nodes(Flatten(root, "")) && categories == Record(map[], Flatten(root, ""))
      ensures text == "" && results == [] && selected == NoSelection && !visible && inserted == []
    {
      var ls, cs := CollectLeafNodes(root, [], map[], "");
      Sidebar.NodesSelectable(Flatten(root, ""));
      leaves := ls;
      categories := cs;
      text := "";
      results := [];
      selected := NoSelection;
      visible := false;
      height := 0;
      this.describable := describable;
      inserted := [];
      populated := false;
    }

    /** `populateAll`: the first ten leaves, the first one selected, and the size fitted. */
    method PopulateAll()
      modifies this
      ensures results == Take(leaves, MaxResults)
      ensures selected == (if results == [] then NoSelection else 0)
      ensures height == FitHeight(|results|)
      ensures text == old(text) && visible == old(visible) && inserted == old(inserted)
      ensures populated == old(populated)
    {
      results := FirstEntries(leaves, MaxResults);
      selected := if |results| > 0 then 0 else NoSelection;
      height := FitHeight(|results|);
    }

    /** `updateResults`, run on every edit: re-lists, selects the first row if any, and fits the size. */
    method UpdateResults()
      requires forall n :: n in leaves ==> Selectable(n)
      modifies this
      ensures Valid() && populated
      ensures results == Listing(leaves, text)
      ensures selected == (if results == [] then NoSelection else 0)
      ensures height == FitHeight(|results|)
      ensures text == old(text) && visible == old(visible) && inserted == old(inserted)
    {
      var q := Normalize(text);
      if q == [] {
        PopulateAll();
      } else {
        results := Rank(leaves, q, MaxResults);
        selected := if |results| > 0 then 0 else NoSelection;
        height := FitHeight(|results|);
      }
      populated := true;
    }

    /** Replaces the field text; the document listener re-lists. */
    method SetText(t: string)
      requires Valid()
      modifies this
      ensures Valid()
      ensures text == t && results == Listing(leaves, t)
      ensures selected == (if results == [] then NoSelection else 0)
      ensures height == FitHeight(|results|)
      ensures visible == old(visible) && inserted == old(inserted) && populated
    {
      text := t;
      UpdateResults();
    }

    /** Opens the dialog with an empty field, the first ten components listed and the first one selected. */
    method ShowDialog()
      requires Valid()
      modifies this
      ensures Valid() && visible
      ensures text == "" && results == Take(leaves, MaxResults) && results == Listing(leaves, "")
      ensures selected == (if results == [] then NoSelection else 0)
      ensures height == ShowHeight(|results|)
      ensures inserted == old(inserted)
    {
      SetText("");
      PopulateAll();
      height := ShowHeight(|results|);
      visible := true;
    }

    method CloseDialog()
      modifies this
      ensures !visible
      ensures text == old(text) && results == old(results) && selected == old(selected)
      ensures height == old(height) && inserted == old(inserted) && populated == old(populated)
    {
      visible := false;
    }

    /** Hands a unique leaf to the circuit, then closes the dialog in every case. */
    method InsertAndClose(node: LibraryNode)
      modifies this
      ensures inserted == old(inserted) + Attempt(node, describable)
      ensures !visible
      ensures text == old(text) && results == old(results) && selected == old(selected)
      ensures height == old(height) && populated == old(populated)
    {
      if node.Leaf? && node.unique {
        if describable(node) {
          inserted := inserted + [Inserted(node)];
        } else {
          inserted := inserted + [LoadFailed(node.name)];
        }
      }
      CloseDialog();
    }

    /** Inserts the listed component at `index`; the field keeps its text until the next opening. */
    method Choose(index: nat)
      requires Valid() && index < |results|
      modifies this
      ensures Valid() && !visible
      ensures inserted == old(inserted) + Attempt(old(results)[index], describable)
      ensures text == old(text) && results == old(results) && selected == old(selected)
    {
      ListingInLeaves(leaves, text, results[index]);
      InsertAndClose(results[index]);
    }

    /**
     * A key pressed in the search field: Down and Up move the cursor without
     * ever losing it, Enter inserts the selected row and closes, Escape closes.
     */
    method KeyPressed(key: KeyCode)
      requires Valid()
      modifies this
      ensures Valid()
      ensures key == VkDown ==>
        selected == SpotlightDown(old(selected), |old(results)|) && visible == old(visible) && inserted == old(inserted)
      ensures key == VkUp ==>
        selected == SpotlightUp(old(selected), |old(results)|) && visible == old(visible) && inserted == old(inserted)
      ensures key == VkEnter && old(selected) >= 0 ==>
        inserted == old(inserted) + Attempt(old(results)[old(selected)], describable) && !visible
      ensures key == VkEnter && old(selected) < 0 ==> visible == old(visible) && inserted == old(inserted)
      ensures key == VkEscape ==> !visible && inserted == old(inserted) && selected == old(selected)
      ensures !(key in {VkDown, VkUp, VkEscape}) ==> selected == old(selected)
      ensures !(key in {VkEnter, VkEscape}) ==> visible == old(visible) && inserted == old(inserted)
      ensures text == old(text) && results == old(results)
    {
      match key {
        case VkDown => selected := SpotlightDown(selected, |results|);
        case VkUp => selected := SpotlightUp(selected, |results|);
        case VkEnter =>
          if selected >= 0 {
            Choose(selected);
          }
        case VkEscape => CloseDialog();
        case _ =>
      }
    }

    /**
     * A click inserts the component of row `index` and closes. `index` is
     * Swing's `locationToIndex` of the pointer: the nearest row, so a click
     * below the last row picks the last row, and -1 only for an empty list.
     */
    method Click(index: int)
      requires Valid() && -1 <= index < |results|
      modifies this
      ensures Valid()
      ensures index >= 0 ==> inserted == old(inserted) + Attempt(old(results)[index], describable) && !visible
      ensures index < 0 ==> unchanged(this)
    {
      if index >= 0 {
        Choose(index);
      }
    }

    /** Moving the pointer selects row `index`, the nearest row as `locationToIndex` gives it (-1 only for an empty list). */
    method Hover(index: int)
      requires Valid() && -1 <= index < |results|
      modifies this
      ensures Valid()
      ensures selected == (if index >= 0 then index else old(selected))
      ensures text == old(text) && results == old(results) && visible == old(visible) && inserted == old(inserted)
    {
      if index >= 0 && index != selected {
        selected := index;
      }
    }

    /** Clicking outside the dialog, so that it loses window focus, closes it. */
    method WindowLostFocus()
      requires Valid()
      modifies this
      ensures Valid() && !visible
      ensures text == old(text) && results == old(results) && selected == old(selected) && inserted == old(inserted)
    {
      CloseDialog();
    }
  }
}
