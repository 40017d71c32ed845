/**
 * The snapshot panel's refresh: onBreakpointsChanged picks the row of the
 * current snapshot, then ModelSetter.run installs a new table model diffed
 * against the old one and decides whether a "new snapshot" balloon appears.
 * The hand-off to the UI thread is modelled as a direct call.
 */
module SnapshotsPanel {
  import opened Wrappers
  import opened SnapshotTable

  // ---------------------------------------------------------------------------
  // Selection of the current snapshot
  // ---------------------------------------------------------------------------

  /** Row i shows the current snapshot: it has a final time and the snapshot's id. */
  predicate IsSnapshotRow(bps: seq<Breakpoint>, snapshot: Option<Breakpoint>, i: int) {
    0 <= i < |bps| && bps[i].hasFinalTime && snapshot.Some? && bps[i].id == snapshot.value.id
  }

  /** selection is the first row showing the current snapshot, or -1 when no row does. */
  predicate IsSelection(bps: seq<Breakpoint>, snapshot: Option<Breakpoint>, selection: int) {
    if selection == -1 then forall i :: 0 <= i < |bps| ==> !IsSnapshotRow(bps, snapshot, i)
    else IsSnapshotRow(bps, snapshot, selection) &&
         forall k :: 0 <= k < selection ==> !IsSnapshotRow(bps, snapshot, k)
  }

  /** The selection loop of onBreakpointsChanged. */
  method SnapshotSelection(breakpointList: Option<seq<Breakpoint>>, snapshot: Option<Breakpoint>)
    returns (selection: int)
    ensures IsSelection(ListOrEmpty(breakpointList), snapshot, selection)
    ensures -1 <= selection < |ListOrEmpty(breakpointList)|
  {
    selection := -1;
    if breakpointList.Some? {
      var bps := breakpointList.value;
      for i := 0 to |bps|
        invariant selection == -1
        invariant forall k :: 0 <= k < i ==> !IsSnapshotRow(bps, snapshot, k)
      {
        if !bps[i].hasFinalTime {
          continue;
        }
        if snapshot.Some? && bps[i].id == snapshot.value.id {
          selection := i;
          break;
        }
      }
    }
  }

  // ---------------------------------------------------------------------------
  // The row of the "new snapshot" balloon
  // ---------------------------------------------------------------------------

  /** Only final rows without an error status are considered for the balloon. */
  predicate PopupCandidate(bp: Breakpoint) {
    bp.isFinal && !bp.isError
  }

  /** Row i is the first candidate row. */
  predicate FirstCandidate(bps: seq<Breakpoint>, i: int) {
    0 <= i < |bps| && PopupCandidate(bps[i]) &&
    forall k :: 0 <= k < i ==> !PopupCandidate(bps[k])
  }

  /**
   * rowForPopup is the first candidate row when its id became newly received
   * in this refresh (flagged in the new model, not in the old), and -1 otherwise.
   */
  predicate IsPopupRow(bps: seq<Breakpoint>, newNewlyReceived: set<string>,
                       oldNewlyReceived: set<string>, rowForPopup: int)
  {
    if rowForPopup == -1 then
      forall i :: 0 <= i < |bps| && FirstCandidate(bps, i) ==>
        !(bps[i].id in newNewlyReceived && bps[i].id !in oldNewlyReceived)
    else
      FirstCandidate(bps, rowForPopup) &&
      bps[rowForPopup].id in newNewlyReceived && bps[rowForPopup].id !in oldNewlyReceived
  }

  /** The popup loop of ModelSetter.run, over the new model's rows and both models' flags. */
  method RowForPopup(bps: seq<Breakpoint>, newNewlyReceived: set<string>, oldNewlyReceived: set<string>)
    returns (rowForPopup: int)
    ensures IsPopupRow(bps, newNewlyReceived, oldNewlyReceived, rowForPopup)
    ensures -1 <= rowForPopup < |bps|
  {
    rowForPopup := -1;
    for row := 0 to |bps|
      invariant rowForPopup == -1
      invariant forall k :: 0 <= k < row ==> !PopupCandidate(bps[k])
    {
      var bp := bps[row];
      if !bp.isFinal {
        continue;
      }
      if bp.isError {
        continue;
      }
      var id := bp.id;
      var newModelNewlyReceived := id in newNewlyReceived;
      var oldModelNewlyReceived := id in oldNewlyReceived;
      if newModelNewlyReceived && !oldModelNewlyReceived {
        rowForPopup := row;
      }
      assert FirstCandidate(bps, row);
      break;
    }
  }

  /** A balloon never points at a row whose id was already flagged before the refresh. */
  lemma PopupRowIsNewlyReceivedRow(bps: seq<Breakpoint>, oldBps: seq<Breakpoint>,
                                   oldNewlyReceived: set<string>, rowForPopup: int)
    requires IsPopupRow(bps, NewlyReceivedAfterRefresh(bps, oldBps, oldNewlyReceived), oldNewlyReceived, rowForPopup)
    requires rowForPopup != -1
    ensures |oldBps| > 0
    ensures var k := LastIndexOfId(oldBps, bps[rowForPopup].id); k == -1 || !oldBps[k].isFinal
  {
    RefreshMembership(bps, oldBps, oldNewlyReceived, bps[rowForPopup].id);
  }

  // ---------------------------------------------------------------------------
  // The panel
  // ---------------------------------------------------------------------------

  class HistoricalSnapshots {
    /** The table's current model. */
    var model: MyModel
    /** The selected row, -1 when none (setting a new model clears the selection). */
    var selectedRow: int
    /** The row the latest "new snapshot" balloon points at, -1 before any balloon. */
    var balloonRow: int

    /** The table starts with an empty model and is then refreshed once. */
    constructor (breakpointList: Option<seq<Breakpoint>>, snapshot: Option<Breakpoint>)
      ensures fresh(model)
      ensures model.breakpoints == ListOrEmpty(breakpointList)
      ensures model.newlyReceived == {} && model.pendingDeletes == {}
      ensures IsSelection(model.breakpoints, snapshot, selectedRow)
      ensures balloonRow == -1
    {
      model := new MyModel(None, null);
      selectedRow := -1;
      balloonRow := -1;
      new;
      OnBreakpointsChanged(breakpointList, snapshot);
    }

    /**
     * A refresh: the new model holds the new list, nothing pending delete and
     * the ids that became newly received against the old model; the selection
     * is the current snapshot's row; a balloon is shown at the popup row when
     * there is one. The old model is left as it was.
     */
    method OnBreakpointsChanged(breakpointList: Option<seq<Breakpoint>>, snapshot: Option<Breakpoint>)
      modifies this
      ensures fresh(model)
      ensures model.breakpoints == ListOrEmpty(breakpointList)
      ensures model.pendingDeletes == {}
      ensures model.newlyReceived ==
        NewlyReceivedAfterRefresh(model.breakpoints, old(model.breakpoints), old(model.newlyReceived))
      ensures IsSelection(model.breakpoints, snapshot, selectedRow)
      ensures if IsPopupRow(model.breakpoints, model.newlyReceived, old(model.newlyReceived), -1)
              then balloonRow == old(balloonRow)
              else IsPopupRow(model.breakpoints, model.newlyReceived, old(model.newlyReceived), balloonRow)
    {
      var finalSelection := SnapshotSelection(breakpointList, snapshot);
      ModelSetterRun(breakpointList, finalSelection);
    }

    /** ModelSetter.run: install the new model, restore the selection, pick the balloon row. */
    method ModelSetterRun(breakpointList: Option<seq<Breakpoint>>, finalSelection: int)
      requires -1 <= finalSelection < |ListOrEmpty(breakpointList)|
      modifies this
      ensures fresh(model)
      ensures model.breakpoints == ListOrEmpty(breakpointList)
      ensures model.pendingDeletes == {}
      ensures model.newlyReceived ==
        NewlyReceivedAfterRefresh(model.breakpoints, old(model.breakpoints), old(model.newlyReceived))
      ensures selectedRow == finalSelection
      ensures if IsPopupRow(model.breakpoints, model.newlyReceived, old(model.newlyReceived), -1)
              then balloonRow == old(balloonRow)
              else IsPopupRow(model.breakpoints, model.newlyReceived, old(model.newlyReceived), balloonRow)
    {
      var oldModel := model;
      var newModel := new MyModel(breakpointList, oldModel);
      model := newModel;
      selectedRow := finalSelection;
      var rowForPopup := RowForPopup(newModel.breakpoints, newModel.newlyReceived, oldModel.newlyReceived);
      if rowForPopup != -1 {
        balloonRow := rowForPopup;
      }
    }
  }
}
