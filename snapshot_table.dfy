/**
 * The table model behind the Cloud Debugger snapshot list: the breakpoints of
 * one refresh, the ids the user deleted locally ("pending delete") and the ids
 * that became final since the previous refresh ("newly received").
 */
module SnapshotTable {
  import opened Wrappers
  import opened JavaLib

  /**
   * A Cloud Debugger breakpoint as the table sees it. isFinal is
   * getIsFinalState() == Boolean.TRUE (null counts as pending), isError is
   * "has a status whose getIsError() is Boolean.TRUE", hasFinalTime is
   * getFinalTime() != null.
   */
  datatype Breakpoint = Breakpoint(
    id: string,
    isFinal: bool,
    isError: bool,
    hasFinalTime: bool,
    path: string,
    line: int,
    condition: string)

  /** The table always has five columns. */
  const ColumnCount := 5

  /** A null breakpoint list is shown as an empty table. */
  function ListOrEmpty(list: Option<seq<Breakpoint>>): seq<Breakpoint> {
    if list.Some? then list.value else []
  }

  // ---------------------------------------------------------------------------
  // The refresh diff
  // ---------------------------------------------------------------------------

  /** The id-to-breakpoint map the constructor fills: a later breakpoint replaces an earlier one with the same id. */
  function IndexById(bps: seq<Breakpoint>): map<string, Breakpoint> {
    if |bps| == 0 then map[]
    else IndexById(bps[..|bps| - 1])[bps[|bps| - 1].id := bps[|bps| - 1]]
  }

  /** The index of the last breakpoint carrying id, or -1 when none does. */
  function LastIndexOfId(bps: seq<Breakpoint>, id: string): (k: int)
    ensures -1 <= k < |bps|
    ensures k >= 0 ==> bps[k].id == id
    ensures forall j :: k < j < |bps| ==> bps[j].id != id
  {
    if |bps| == 0 then -1
    else if bps[|bps| - 1].id == id then |bps| - 1
    else LastIndexOfId(bps[..|bps| - 1], id)
  }

  lemma {:induction false} IndexByIdLookup(bps: seq<Breakpoint>, id: string)
    ensures id in IndexById(bps) <==> LastIndexOfId(bps, id) >= 0
    ensures id in IndexById(bps) ==> IndexById(bps)[id] == bps[LastIndexOfId(bps, id)]
  {
    if |bps| > 0 && bps[|bps| - 1].id != id {
      IndexByIdLookup(bps[..|bps| - 1], id);
    }
  }

  /**
   * Whether the refresh marks b as newly received, given the old model's map
   * and newly-received set: b is final, unless the old model already knew it
   * as final and no longer flagged it.
   */
  predicate MarksNewlyReceived(b: Breakpoint, previous: map<string, Breakpoint>, oldNewlyReceived: set<string>) {
    b.isFinal &&
    !(b.id in previous && previous[b.id].isFinal && previous[b.id].id !in oldNewlyReceived)
  }

  /** The set of ids that the constructor's loop over the new breakpoints adds. */
  function NewlyReceivedFrom(bps: seq<Breakpoint>, previous: map<string, Breakpoint>,
                             oldNewlyReceived: set<string>): set<string>
  {
    if |bps| == 0 then {}
    else
      NewlyReceivedFrom(bps[..|bps| - 1], previous, oldNewlyReceived) +
      (if MarksNewlyReceived(bps[|bps| - 1], previous, oldNewlyReceived) then {bps[|bps| - 1].id} else {})
  }

  /** The newly-received set of a model built from newBps after a model holding oldBps and oldNewlyReceived. */
  function NewlyReceivedAfterRefresh(newBps: seq<Breakpoint>, oldBps: seq<Breakpoint>,
                                     oldNewlyReceived: set<string>): set<string>
  {
    if |oldBps| == 0 then {}
    else NewlyReceivedFrom(newBps, IndexById(oldBps), oldNewlyReceived)
  }

  lemma {:induction false} NewlyReceivedFromMembership(bps: seq<Breakpoint>, previous: map<string, Breakpoint>,
                                                       oldNewlyReceived: set<string>, id: string)
    ensures id in NewlyReceivedFrom(bps, previous, oldNewlyReceived) <==>
      exists i :: 0 <= i < |bps| && bps[i].id == id && MarksNewlyReceived(bps[i], previous, oldNewlyReceived)
  {
    if |bps| > 0 {
      var init := bps[..|bps| - 1];
      NewlyReceivedFromMembership(init, previous, oldNewlyReceived, id);
      if id in NewlyReceivedFrom(init, previous, oldNewlyReceived) {
        var i :| 0 <= i < |init| && init[i].id == id && MarksNewlyReceived(init[i], previous, oldNewlyReceived);
        assert bps[i] == init[i];
      }
      forall i | 0 <= i < |init| && init[i].id == id && MarksNewlyReceived(init[i], previous, oldNewlyReceived)
        ensures id in NewlyReceivedFrom(init, previous, oldNewlyReceived)
      {
      }
      assert forall i :: 0 <= i < |init| ==> bps[i] == init[i];
    }
  }

  /**
   * The refresh diff in full: after a refresh from a non-empty old model, an id
   * is newly received exactly when some final new breakpoint carries it and
   * either the old model had no breakpoint with that id, or the last one it had
   * was not final, or the id was still flagged newly received in the old model.
   * After a refresh from an empty old model nothing is newly received.
   */
  lemma RefreshMembership(newBps: seq<Breakpoint>, oldBps: seq<Breakpoint>,
                          oldNewlyReceived: set<string>, id: string)
    ensures id in NewlyReceivedAfterRefresh(newBps, oldBps, oldNewlyReceived) <==>
      |oldBps| > 0 &&
      (exists i :: 0 <= i < |newBps| && newBps[i].id == id && newBps[i].isFinal) &&
      (var k := LastIndexOfId(oldBps, id);
       k == -1 || !oldBps[k].isFinal || id in oldNewlyReceived)
  {
    if |oldBps| > 0 {
      var previous := IndexById(oldBps);
      NewlyReceivedFromMembership(newBps, previous, oldNewlyReceived, id);
      IndexByIdLookup(oldBps, id);
      forall i | 0 <= i < |newBps| && newBps[i].id == id
        ensures MarksNewlyReceived(newBps[i], previous, oldNewlyReceived) <==>
          newBps[i].isFinal &&
          (var k := LastIndexOfId(oldBps, id); k == -1 || !oldBps[k].isFinal || id in oldNewlyReceived)
      {
      }
    }
  }

  /** Only final breakpoints of the new list are ever newly received. */
  lemma RefreshOnlyFinal(newBps: seq<Breakpoint>, oldBps: seq<Breakpoint>,
                         oldNewlyReceived: set<string>, id: string)
    requires id in NewlyReceivedAfterRefresh(newBps, oldBps, oldNewlyReceived)
    ensures exists i :: 0 <= i < |newBps| && newBps[i].id == id && newBps[i].isFinal
  {
    RefreshMembership(newBps, oldBps, oldNewlyReceived, id);
  }

  /** A breakpoint the old model knew as final, and no longer flagged, is not newly received again. */
  lemma RefreshForgetsSeen(newBps: seq<Breakpoint>, oldBps: seq<Breakpoint>,
                           oldNewlyReceived: set<string>, id: string)
    requires LastIndexOfId(oldBps, id) >= 0 && oldBps[LastIndexOfId(oldBps, id)].isFinal
    requires id !in oldNewlyReceived
    ensures id !in NewlyReceivedAfterRefresh(newBps, oldBps, oldNewlyReceived)
  {
    RefreshMembership(newBps, oldBps, oldNewlyReceived, id);
  }

  /**
   * Refreshing with the same list again (ids unique) keeps exactly the flags
   * that are still set on final breakpoints: nothing new appears.
   */
  lemma RefreshWithSameList(bps: seq<Breakpoint>, oldNewlyReceived: set<string>)
    requires |bps| > 0
    requires forall i, j :: 0 <= i < j < |bps| ==> bps[i].id != bps[j].id
    ensures NewlyReceivedAfterRefresh(bps, bps, oldNewlyReceived) ==
      oldNewlyReceived * (set i | 0 <= i < |bps| && bps[i].isFinal :: bps[i].id)
  {
    var finals := set i | 0 <= i < |bps| && bps[i].isFinal :: bps[i].id;
    forall id
      ensures id in NewlyReceivedAfterRefresh(bps, bps, oldNewlyReceived) <==> id in oldNewlyReceived * finals
    {
      RefreshMembership(bps, bps, oldNewlyReceived, id);
      var k := LastIndexOfId(bps, id);
      if id in finals {
        var i :| 0 <= i < |bps| && bps[i].isFinal && bps[i].id == id;
        assert k == i;
      }
    }
  }

  // ---------------------------------------------------------------------------
  // Cell values
  // ---------------------------------------------------------------------------

  datatype Icon = CloudBreakpointError | CloudBreakpointChecked | CloudBreakpointFinal

  /**
   * What getValueAt returns. FinalTime stands for the parsed final time of a
   * final snapshot; PendingStatus for the "pending" label; MoreLink for the
   * "More" link; NullValue for null.
   */
  datatype CellValue = NullValue | IconCell(icon: Icon) | PendingStatus | FinalTime | Text(text: string) | MoreLink

  /** Column 0: an error status wins over the final state. */
  function StatusIcon(bp: Breakpoint): (icon: Icon)
    ensures bp.isError ==> icon == CloudBreakpointError
    ensures !bp.isError && bp.isFinal ==> icon == CloudBreakpointFinal
    ensures !bp.isError && !bp.isFinal ==> icon == CloudBreakpointChecked
  {
    if bp.isError then CloudBreakpointError
    else if !bp.isFinal then CloudBreakpointChecked
    else CloudBreakpointFinal
  }

  /** The file name of a path: what follows its last '/', or the whole path. */
  function BaseName(path: string): (name: string)
    ensures '/' !in name
    ensures |name| <= |path| && path[|path| - |name|..] == name
    ensures |name| < |path| ==> path[|path| - |name| - 1] == '/'
  {
    var startIndex := LastIndexOf(path, '/');
    path[if startIndex >= 0 then startIndex + 1 else 0..]
  }

  /** Column 2: "<file name>:<line>". */
  function LocationLabel(path: string, line: int): string {
    BaseName(path) + ":" + IntegerToString(line)
  }

  /** The label splits back at its last ':' into the file name and the line number. */
  lemma LocationLabelRoundTrip(path: string, line: int)
    ensures (var shown := LocationLabel(path, line);
             var k := LastIndexOf(shown, ':');
             0 <= k && shown[..k] == BaseName(path) && ParseInteger(shown[k + 1..]) == Some(line))
  {
    var shown := LocationLabel(path, line);
    var n := BaseName(path);
    var digits := IntegerToString(line);
    IntegerToStringRoundTrip(line);
    assert shown[|n|] == ':';
    assert shown[|n| + 1..] == digits;
    assert forall j :: |n| < j < |shown| ==> shown[j] == digits[j - |n| - 1];
    assert LastIndexOf(shown, ':') == |n|;
    assert shown[..|n|] == n;
  }

  // ---------------------------------------------------------------------------
  // The table model
  // ---------------------------------------------------------------------------

  class MyModel {
    var breakpoints: seq<Breakpoint>
    var pendingDeletes: set<string>
    var newlyReceived: set<string>

    /**
     * Builds the model for a refresh: the new list (null is an empty table),
     * nothing pending delete, and the ids newly received since oldModel.
     */
    constructor (list: Option<seq<Breakpoint>>, oldModel: MyModel?)
      ensures breakpoints == ListOrEmpty(list)
      ensures GetRowCount() == (if list.Some? then |list.value| else 0)
      ensures pendingDeletes == {}
      ensures oldModel == null ==> newlyReceived == {}
      ensures oldModel != null ==>
        newlyReceived == NewlyReceivedAfterRefresh(breakpoints, oldModel.breakpoints, oldModel.newlyReceived)
    {
      var received: set<string> := {};
      if oldModel != null && |oldModel.breakpoints| > 0 {
        var previousBreakpoints := oldModel.breakpoints;
        var tempHashMap: map<string, Breakpoint> := map[];
        for i := 0 to |previousBreakpoints|
          invariant tempHashMap == IndexById(previousBreakpoints[..i])
        {
          var previousBreakpoint := previousBreakpoints[i];
          assert previousBreakpoints[..i + 1][..i] == previousBreakpoints[..i];
          tempHashMap := tempHashMap[previousBreakpoint.id := previousBreakpoint];
        }
        assert previousBreakpoints[..|previousBreakpoints|] == previousBreakpoints;

        if list.Some? {
          var bps := list.value;
          for j := 0 to |bps|
            invariant received == NewlyReceivedFrom(bps[..j], tempHashMap, oldModel.newlyReceived)
          {
            var newBreakpoint := bps[j];
            assert bps[..j + 1][..j] == bps[..j];
            if !newBreakpoint.isFinal {
              continue;
            }
            if newBreakpoint.id in tempHashMap {
              var previousBreakpoint := tempHashMap[newBreakpoint.id];
              if previousBreakpoint.isFinal {
                if !oldModel.IsNewlyReceivedId(previousBreakpoint.id) {
                  continue;
                }
              }
            }
            received := received + {newBreakpoint.id};
          }
          assert bps[..|bps|] == bps;
        }
      }
      breakpoints := ListOrEmpty(list);
      pendingDeletes := {};
      newlyReceived := received;
    }

    /** One row per breakpoint of the model. */
    function GetRowCount(): (n: nat)
      reads this
      ensures n == |breakpoints|
    {
      |breakpoints|
    }

    /** Adds id to the pending-delete set; nothing else changes. */
    method MarkForDelete(id: string)
      modifies this
      ensures pendingDeletes == old(pendingDeletes) + {id}
      ensures breakpoints == old(breakpoints) && newlyReceived == old(newlyReceived)
      ensures forall row :: IsMarkedForDelete(row) <==>
        old(IsMarkedForDelete(row)) || (0 <= row < |breakpoints| && breakpoints[row].id == id)
    {
      pendingDeletes := pendingDeletes + {id};
    }

    /** Removes id from the newly-received set; nothing else changes. */
    method UnMarkAsNewlyReceived(id: string)
      modifies this
      ensures newlyReceived == old(newlyReceived) - {id}
      ensures breakpoints == old(breakpoints) && pendingDeletes == old(pendingDeletes)
      ensures forall row :: IsNewlyReceived(row) <==>
        old(IsNewlyReceived(row)) && breakpoints[row].id != id
    {
      newlyReceived := newlyReceived - {id};
    }

    /** False for a row outside the table. */
    function IsMarkedForDelete(row: int): (marked: bool)
      reads this
      ensures marked <==> 0 <= row < |breakpoints| && breakpoints[row].id in pendingDeletes
    {
      var breakpoint := if 0 <= row < |breakpoints| then Some(breakpoints[row]) else None;
      breakpoint.Some? && breakpoint.value.id in pendingDeletes
    }

    function IsNewlyReceivedId(id: string): bool
      reads this
    {
      id in newlyReceived
    }

    /** False for a row outside the table. */
    function IsNewlyReceived(row: int): (received: bool)
      reads this
      ensures received <==> 0 <= row < |breakpoints| && breakpoints[row].id in newlyReceived
    {
      var breakpoint := if 0 <= row < |breakpoints| then Some(breakpoints[row]) else None;
      breakpoint.Some? && IsNewlyReceivedId(breakpoint.value.id)
    }

    /**
     * The value of a cell; null outside the table and outside columns 0 to 4.
     * supportsMoreConfig is the IDE's answer to whether the row's breakpoint
     * has a local counterpart.
     */
    function GetValueAt(rowIndex: int, columnIndex: int, supportsMoreConfig: bool): (v: CellValue)
      reads this
      ensures !(0 <= rowIndex < |breakpoints|) ==> v == NullValue
      ensures !(0 <= columnIndex < ColumnCount) ==> v == NullValue
      ensures 0 <= rowIndex < |breakpoints| ==>
        (var bp := breakpoints[rowIndex];
        (columnIndex == 0 ==> v == IconCell(StatusIcon(bp))) &&
        (columnIndex == 1 ==> (v == FinalTime <==> bp.isFinal) && (v == PendingStatus <==> !bp.isFinal)) &&
        (columnIndex == 2 ==> v == Text(LocationLabel(bp.path, bp.line))) &&
        (columnIndex == 3 ==> v == Text(bp.condition)) &&
        (columnIndex == 4 ==> (v == MoreLink <==> supportsMoreConfig) && (v == NullValue <==> !supportsMoreConfig)))
    {
      if rowIndex < 0 || rowIndex >= |breakpoints| then NullValue
      else
        var breakpoint := breakpoints[rowIndex];
        match columnIndex
        case 0 => IconCell(StatusIcon(breakpoint))
        case 1 => if !breakpoint.isFinal then PendingStatus else FinalTime
        case 2 => Text(LocationLabel(breakpoint.path, breakpoint.line))
        case 3 => Text(breakpoint.condition)
        case 4 => if supportsMoreConfig then MoreLink else NullValue
        case _ => NullValue
    }
  }
}
