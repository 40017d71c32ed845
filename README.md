# Cloud Debugger snapshot table and BOM version combo box, in Dafny

This project models two pieces of sequential logic from Google Cloud Tools for IntelliJ and proves what they promise.

**Snapshot table.** This is the Cloud Debugger "historical snapshots" panel (`CloudDebugHistoricalSnapshots`).
- Each refresh builds a new table model from the server's breakpoint list and the previous model.
- The new model has an empty "pending delete" id set. Its "newly received" id set holds the ids that became final since the last refresh, plus those still flagged and still final.
- Row queries are safe on rows outside the table. Cell values give an icon (an error wins over final state), a pending/final-time marker, a `file:line` label and the condition.
- The panel selects the row of the current snapshot. It shows a "new snapshot" balloon only when the first final, non-error row was newly received in this refresh.

**BOM combo box.** This is `BomComboBox.populateBomVersions`.
- It sorts the fetched BOM versions in reverse `String.compareTo` order and keeps at most five.
- It adds the module's configured version if it is missing, then re-sorts.
- It replaces the combo's items and preselects the configured version.
- With no versions and no configured version, the BOM UI is hidden instead.
- The renderer shows each version as `(BOM) <version>`.

Files:
- `wrappers.dfy`: `Option`, which stands for a nullable Java reference.
- `java_lib.dfy`: the Java library behaviour the core relies on.
  - `String.compareTo`, with its order lemmas.
  - `String.lastIndexOf(char)`.
  - `List.indexOf`.
  - `Integer.toString`, with a decimal parser as its inverse.
- `snapshot_table.dfy`: the `Breakpoint` datatype, the refresh-diff specification and its lemmas, the `MyModel` class and the cell values.
- `snapshots_panel.dfy`: the selection loop, the popup-row loop and the panel class, which runs `onBreakpointsChanged` followed by `ModelSetter.run`.
- `bom_versions.dfy`: the descending sort, the combo box's list, the combo box class and the renderer text.

Modelling choices:
- A breakpoint's `isFinal` is `getIsFinalState() == Boolean.TRUE`, so null counts as pending.
- `isError` means the breakpoint has a status and that status's `getIsError()` is `Boolean.TRUE`.
- `hasFinalTime` means `getFinalTime() != null`.
- When the old model holds several breakpoints with one id, the last one counts. This matches the source, which fills a `HashMap` in list order.
- `List.sort(Comparator.reverseOrder())` is modelled by an insertion sort. `BomVersions.DescendingUnique` proves that any correct sort by that comparator gives the same list, so the choice of algorithm does not matter.
- The sorted list is returned as a new sequence, not sorted in place.
- `onBreakpointsChanged` reads the current snapshot once. The source asks for it on every loop iteration.
- The hand-off to the UI thread is a direct call.
- `getCurrentBreakpointList()`, `getCurrentSnapshot()`, `getAllBomVersions()` and the module's configured BOM version are parameters.
- `hideBomUI()` is called by the source but not defined in it. It is modelled as setting a `bomUiHidden` flag.
- The combo box follows Swing's `DefaultComboBoxModel`:
  - `removeAllItems` clears the selection;
  - `addItem` selects the first item added to an empty box that has no selection;
  - so with no configured version, the first (newest) item ends up selected.
- Setting a new table model clears the table's selection. The panel's `selectedRow` is therefore the computed selection, or -1.

## Model

| member | source | states |
|---|---|---|
| `SnapshotTable.MyModel.constructor` | core-plugin/src/com/google/gct/idea/debugger/ui/CloudDebugHistoricalSnapshots.java:451-484 | Rows: the given list, or none for a null list, so the row count is the list length or 0. Pending deletes: empty. Newly received: empty without an old model; otherwise the refresh diff against the old model's breakpoints and flags, which is empty for an old model with no rows. |
| `SnapshotTable.IndexByIdLookup` | core-plugin/src/com/google/gct/idea/debugger/ui/CloudDebugHistoricalSnapshots.java:455-459 | The id map built from the old breakpoints has a key exactly for the ids present. Each key maps to the last old breakpoint with that id. |
| `SnapshotTable.NewlyReceivedFromMembership` | core-plugin/src/com/google/gct/idea/debugger/ui/CloudDebugHistoricalSnapshots.java:461-479 | The loop over the new breakpoints collects exactly the ids of the breakpoints it marks. |
| `SnapshotTable.RefreshMembership` | core-plugin/src/com/google/gct/idea/debugger/ui/CloudDebugHistoricalSnapshots.java:456-479 | Given a non-empty old model, an id is newly received iff some final new breakpoint carries it and one of these holds: the id was absent from the old model, the last old breakpoint with it was not final, or it was still flagged in the old model. Given an empty old model, no id is. |
| `SnapshotTable.RefreshOnlyFinal` | core-plugin/src/com/google/gct/idea/debugger/ui/CloudDebugHistoricalSnapshots.java:462-478 | Every newly received id is the id of a final breakpoint in the new list. |
| `SnapshotTable.RefreshForgetsSeen` | core-plugin/src/com/google/gct/idea/debugger/ui/CloudDebugHistoricalSnapshots.java:470-476 | An id that was final and not flagged in the old model is not newly received after the refresh. |
| `SnapshotTable.RefreshWithSameList` | core-plugin/src/com/google/gct/idea/debugger/ui/CloudDebugHistoricalSnapshots.java:454-481 | Refreshing with the same non-empty list of distinct ids keeps exactly the old flags that sit on final breakpoints. Nothing new appears. |
| `SnapshotTable.MyModel.MarkForDelete` | core-plugin/src/com/google/gct/idea/debugger/ui/CloudDebugHistoricalSnapshots.java:501-503 | The id joins the pending-delete set and nothing else changes. A row becomes marked exactly when it was marked before or carries that id. |
| `SnapshotTable.MyModel.UnMarkAsNewlyReceived` | core-plugin/src/com/google/gct/idea/debugger/ui/CloudDebugHistoricalSnapshots.java:505-507 | The id leaves the newly-received set and nothing else changes. A row stays flagged exactly when it was flagged and carries another id. |
| `SnapshotTable.MyModel.GetRowCount` | core-plugin/src/com/google/gct/idea/debugger/ui/CloudDebugHistoricalSnapshots.java:496-499 | The row count is the length of the model's breakpoint list. |
| `SnapshotTable.MyModel.IsMarkedForDelete` | core-plugin/src/com/google/gct/idea/debugger/ui/CloudDebugHistoricalSnapshots.java:509-515 | True exactly for an in-range row whose id is pending delete; false for every out-of-range row. |
| `SnapshotTable.MyModel.IsNewlyReceived` | core-plugin/src/com/google/gct/idea/debugger/ui/CloudDebugHistoricalSnapshots.java:517-527 | True exactly for an in-range row whose id is newly received; false for every out-of-range row. |
| `SnapshotTable.MyModel.GetValueAt` | core-plugin/src/com/google/gct/idea/debugger/ui/CloudDebugHistoricalSnapshots.java:529-565 | Null outside the table and outside columns 0-4. Column 0: the status icon, always the error icon for an error. Column 1: the final-time value iff the breakpoint is final, else the pending label. Column 2: the location label. Column 3: the condition. Column 4: the "More" link iff the breakpoint supports more configuration. |
| `SnapshotTable.StatusIcon` | core-plugin/src/com/google/gct/idea/debugger/ui/CloudDebugHistoricalSnapshots.java:537-544 | An error status gives the error icon whatever the final state. Otherwise a final breakpoint gives the final icon and a pending one the checked icon. |
| `SnapshotTable.BaseName` | core-plugin/src/com/google/gct/idea/debugger/ui/CloudDebugHistoricalSnapshots.java:551-553 | The result holds no '/' and is a suffix of the path. When shorter than the path, it is preceded by a '/'. So it is the text after the last '/', or the whole path. |
| `SnapshotTable.LocationLabelRoundTrip` | core-plugin/src/com/google/gct/idea/debugger/ui/CloudDebugHistoricalSnapshots.java:550-555 | The column-2 label splits at its last ':' into the file name and the decimal line number, which parses back to the line. |
| `JavaLib.LastIndexOf` | core-plugin/src/com/google/gct/idea/debugger/ui/CloudDebugHistoricalSnapshots.java:552 | The result is -1 or an index holding the char, and no later index holds it. |
| `JavaLib.IntegerToStringRoundTrip` | core-plugin/src/com/google/gct/idea/debugger/ui/CloudDebugHistoricalSnapshots.java:555 | `Integer.toString` of the line contains no ':' and no '/', and parses back to the line. |
| `SnapshotsPanel.SnapshotSelection` | core-plugin/src/com/google/gct/idea/debugger/ui/CloudDebugHistoricalSnapshots.java:259-276 | The selection is the smallest row with a final time and the current snapshot's id. It is -1 when no row qualifies, including for a null list or no current snapshot. |
| `SnapshotsPanel.RowForPopup` | core-plugin/src/com/google/gct/idea/debugger/ui/CloudDebugHistoricalSnapshots.java:731-752 | The popup row is the first final, non-error row when its id is newly received in the new model and not in the old one. Otherwise it is -1, and later rows are never considered. |
| `SnapshotsPanel.PopupRowIsNewlyReceivedRow` | core-plugin/src/com/google/gct/idea/debugger/ui/CloudDebugHistoricalSnapshots.java:744-750 | A balloon after a refresh implies the old model had rows. It also implies that the row's id was absent there or last seen as non-final. |
| `SnapshotsPanel.HistoricalSnapshots.ModelSetterRun` | core-plugin/src/com/google/gct/idea/debugger/ui/CloudDebugHistoricalSnapshots.java:723-766 | A fresh model replaces the old one, diffed against it. The selection is the given row. The balloon moves to the popup row when there is one and stays put otherwise. |
| `SnapshotsPanel.HistoricalSnapshots.OnBreakpointsChanged` | core-plugin/src/com/google/gct/idea/debugger/ui/CloudDebugHistoricalSnapshots.java:259-283 | After a refresh the model holds the new list with the refresh diff, and the selected row is the current snapshot's row or -1. |
| `SnapshotsPanel.HistoricalSnapshots.constructor` | core-plugin/src/com/google/gct/idea/debugger/ui/CloudDebugHistoricalSnapshots.java:102-115 | The panel starts from an empty model and refreshes once. Nothing is then newly received or pending delete. |
| `JavaLib.CompareTo` | google-cloud-apis/java/src/com/google/cloud/tools/intellij/cloudapis/java/BomComboBox.java:68-71 | `String.compareTo` is 0 exactly for equal strings. |
| `JavaLib.CompareToAntisymmetric` | google-cloud-apis/java/src/com/google/cloud/tools/intellij/cloudapis/java/BomComboBox.java:68-71 | Swapping the arguments negates the result, so the reversed comparator is a total order. |
| `JavaLib.CompareToTransitive` | google-cloud-apis/java/src/com/google/cloud/tools/intellij/cloudapis/java/BomComboBox.java:68-71 | The order `compareTo(a, b) >= 0` is transitive. |
| `JavaLib.CompareToTotal` | google-cloud-apis/java/src/com/google/cloud/tools/intellij/cloudapis/java/BomComboBox.java:68-71 | Any two strings are comparable one way or the other. |
| `BomVersions.InsertCorrect` | google-cloud-apis/java/src/com/google/cloud/tools/intellij/cloudapis/java/BomComboBox.java:68-71 | Inserting into a descending list keeps it descending and adds exactly that element. |
| `BomVersions.SortDescendingCorrect` | google-cloud-apis/java/src/com/google/cloud/tools/intellij/cloudapis/java/BomComboBox.java:68-71 | The reference sort gives a descending permutation of its input. |
| `BomVersions.DescendingUnique` | google-cloud-apis/java/src/com/google/cloud/tools/intellij/cloudapis/java/BomComboBox.java:68-71 | Two descending lists with the same elements are equal, so the result of sorting by `reverseOrder()` does not depend on the algorithm. |
| `BomVersions.SortBomList` | google-cloud-apis/java/src/com/google/cloud/tools/intellij/cloudapis/java/BomComboBox.java:68-71 | The result is a descending permutation of the versions, the one the reference sort gives. |
| `JavaLib.IndexOf` | google-cloud-apis/java/src/com/google/cloud/tools/intellij/cloudapis/java/BomComboBox.java:100-101 | `indexOf` is -1 iff the element is absent. Otherwise it is the first index holding the element. |
| `BomVersions.TopVersionsAreLargest` | google-cloud-apis/java/src/com/google/cloud/tools/intellij/cloudapis/java/BomComboBox.java:93-97 | The kept versions are descending, min(5, n) in number and drawn from the fetched ones. Every fetched version left out compares <= every kept one. |
| `BomVersions.BomItemsContents` | google-cloud-apis/java/src/com/google/cloud/tools/intellij/cloudapis/java/BomComboBox.java:90-104 | No list iff nothing was fetched or configured. Otherwise the list is non-empty, descending and at most 6 long. It is the kept versions when the configured version is absent or already kept. Otherwise it is those plus exactly the configured version. |
| `BomVersions.BomItemsSelectConfigured` | google-cloud-apis/java/src/com/google/cloud/tools/intellij/cloudapis/java/BomComboBox.java:99-112 | A configured version is always in the final list, and `indexOf` gives a valid index holding it. |
| `BomVersions.BomVersionList` | google-cloud-apis/java/src/com/google/cloud/tools/intellij/cloudapis/java/BomComboBox.java:82-104 | The imperative steps (sort, cut to five, `indexOf` test, append, re-sort) compute exactly `BomItems` of the inputs. The lemmas above state its properties. |
| `BomVersions.BomComboBox.PopulateBomVersions` | google-cloud-apis/java/src/com/google/cloud/tools/intellij/cloudapis/java/BomComboBox.java:82-113 | With nothing fetched or configured: the UI is hidden and the items and selection are untouched. Otherwise the items are replaced, in order, by the computed list. The selection is the configured version's index when there is one, else the first item, by Swing's rule. |
| `BomVersions.DisplayTextRoundTrip` | google-cloud-apis/java/src/com/google/cloud/tools/intellij/cloudapis/java/BomComboBox.java:180-187 | The renderer's text is "(BOM) " followed by the version. Reading the version back from a text of that shape gives it exactly, and texts and versions correspond one to one. |

## Left out

- Swing rendering is not modelled: cell renderers, fonts, colours, `resizeColumnWidth`, cursor switching, tooltips, toolbar setup. These have no result beyond the widgets.
- Balloon construction and usage tracking are not modelled. Only the row the balloon points at is kept.
- Threading is not modelled. The refresh is sequential, and `SwingUtilities.invokeLater` with the threads it hands off between is left out.
- Remote and IDE calls are not modelled: `deleteBreakpoint`, `cloneToNewBreakpoints`, `navigateToSnapshot`, `getAllBomVersions`, `getManagedDependencyVersion`. Their results, where used, are parameters.
- `SnapshotTable.MyModel.GetValueAt`: column 1 for a final breakpoint is the marker `FinalTime`, not a parsed date. `BreakpointUtil.parseDateTime` and date formatting depend on the locale and clock and are not part of this model.
- `SnapshotTable.MyModel.GetValueAt`: column 4's `supportsMoreConfig` depends on the IDE's breakpoint handler, so it is a boolean parameter.
- The delete, delete-all, reactivate and click actions, `sessionStopped` and `fireDeleteBreakpoints` are not modelled beyond the model methods they call.
- A null breakpoint id is not modelled; ids are strings. The refresh diff and the row queries would accept a null id, because `HashMap` and `HashSet` accept null. The selection loop would throw on `getId().equals(...)` for a row with a final time when there is a current snapshot.
- A null location, path or line is not modelled; the source throws on these when it builds column 2.
- `SnapshotTable.MyModel.GetValueAt`: a breakpoint without a condition has a null `getCondition()`, so the source's column 3 is null there. The model's condition is always a string, so column 3 is always `Text`; a null condition can only be approximated by an empty string.
- `BomVersions.BomVersionDisplayText`: Swing passes a null value to the renderer for an empty combo with no selection, and `String.format` then renders "(BOM) null". A `string` parameter cannot express that case.
- `JavaLib.CompareTo` compares Dafny chars, which are Unicode scalar values. Java compares UTF-16 code units. The two agree except on characters outside the Basic Multilingual Plane.
- `JavaLib.IntegerToString` is over unbounded integers; the source's line is a 32-bit `Integer`.
- `BomComboBox.updateManagedLibraryVersionFromBom` and the listeners registered in `init` are not modelled: they are asynchronous network glue.
- The skaffold run configuration, the App Engine start-up component and the Cloud API UI extension-point classes are not part of this model. They are IDE wiring.
