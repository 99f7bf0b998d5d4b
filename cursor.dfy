/**
 * The selection cursor of the two result lists: an index into the results,
 * or -1 for "no selection". The sidebar field and the spotlight dialog move
 * it differently at the top of the list.
 */
module Cursor {

  /** No row selected. */
  const NoSelection := -1

  predicate ValidSelection(sel: int, size: nat) {
    sel == NoSelection || 0 <= sel < size
  }

  /** Sidebar Down: one row further unless already on the last row. */
  function SidebarDown(sel: int, size: nat): (r: int)
    requires ValidSelection(sel, size)
    ensures ValidSelection(r, size)
    ensures size > 0 ==> r >= 0
    ensures sel < size - 1 ==> r == sel + 1
    ensures sel == size - 1 ==> r == sel
  {
    if sel < size - 1 then sel + 1 else sel
  }

  /** Sidebar Up: one row up; from the top row (or none) the selection is cleared. */
  function SidebarUp(sel: int, size: nat): (r: int)
    requires ValidSelection(sel, size)
    ensures ValidSelection(r, size)
    ensures sel > 0 ==> r == sel - 1
    ensures sel <= 0 ==> r == NoSelection
  {
    if sel > 0 then sel - 1 else NoSelection
  }

  /** Spotlight Down: `min(sel + 1, size - 1)` when there are results; from none it goes to 0. */
  function SpotlightDown(sel: int, size: nat): (r: int)
    requires ValidSelection(sel, size)
    ensures ValidSelection(r, size)
    ensures size > 0 ==> r == if sel + 1 < size - 1 then sel + 1 else size - 1
    ensures size > 0 && sel == NoSelection ==> r == 0
    ensures size == 0 ==> r == sel
  {
    if size > 0 then (if sel + 1 < size - 1 then sel + 1 else size - 1) else sel
  }

  /** Spotlight Up: one row up; at the top row, or with no selection, nothing moves. */
  function SpotlightUp(sel: int, size: nat): (r: int)
    requires ValidSelection(sel, size)
    ensures ValidSelection(r, size)
    ensures sel > 0 ==> r == sel - 1
    ensures sel <= 0 ==> r == sel
  {
    if sel > 0 then sel - 1 else sel
  }

  datatype Move = MoveUp | MoveDown

  function SidebarMoves(sel: int, size: nat, moves: seq<Move>): int
    requires ValidSelection(sel, size)
    decreases |moves|
  {
    if moves == [] then sel
    else
      var next := if moves[0] == MoveUp then SidebarUp(sel, size) else SidebarDown(sel, size);
      SidebarMoves(next, size, moves[1..])
  }

  function SpotlightMoves(sel: int, size: nat, moves: seq<Move>): int
    requires ValidSelection(sel, size)
    decreases |moves|
  {
    if moves == [] then sel
    else
      var next := if moves[0] == MoveUp then SpotlightUp(sel, size) else SpotlightDown(sel, size);
      SpotlightMoves(next, size, moves[1..])
  }

  /** Clamping invariant: after any key sequence the cursor is none or a valid row. */
  lemma {:induction false} MovesKeepSelectionValid(sel: int, size: nat, moves: seq<Move>)
    requires ValidSelection(sel, size)
    ensures ValidSelection(SidebarMoves(sel, size, moves), size)
    ensures ValidSelection(SpotlightMoves(sel, size, moves), size)
    decreases |moves|
  {
    if moves != [] {
      var up := moves[0] == MoveUp;
      MovesKeepSelectionValid(if up then SidebarUp(sel, size) else SidebarDown(sel, size), size, moves[1..]);
      MovesKeepSelectionValid(if up then SpotlightUp(sel, size) else SpotlightDown(sel, size), size, moves[1..]);
      assert SidebarMoves(sel, size, moves)
          == SidebarMoves(if up then SidebarUp(sel, size) else SidebarDown(sel, size), size, moves[1..]);
      assert SpotlightMoves(sel, size, moves)
          == SpotlightMoves(if up then SpotlightUp(sel, size) else SpotlightDown(sel, size), size, moves[1..]);
    }
  }

  function Downs(k: nat): (r: seq<Move>)
    ensures |r| == k && forall i :: 0 <= i < k ==> r[i] == MoveDown
  {
    seq(k, i => MoveDown)
  }

  /** `k` Down presses from any valid cursor land on `min(sel + k, size - 1)` in both lists. */
  lemma {:induction false} DownsClamp(sel: int, size: nat, k: nat)
    requires size > 0 && ValidSelection(sel, size)
    ensures SidebarMoves(sel, size, Downs(k)) == if sel + k < size - 1 then sel + k else size - 1
    ensures SpotlightMoves(sel, size, Downs(k)) == if sel + k < size - 1 then sel + k else size - 1
    decreases k
  {
    if k > 0 {
      assert Downs(k)[1..] == Downs(k - 1);
      DownsClamp(SidebarDown(sel, size), size, k - 1);
      DownsClamp(SpotlightDown(sel, size), size, k - 1);
    }
  }

  /**
   * The asymmetry at the top row: Up leaves the sidebar with no selection
   * (so Enter does nothing) but keeps row 0 in the spotlight.
   */
  lemma UpFromTop(size: nat)
    requires size > 0
    ensures SidebarUp(0, size) == NoSelection
    ensures SpotlightUp(0, size) == 0
  {
  }
}
