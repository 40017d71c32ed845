/**
 * The BOM version combo box: the fetched BOM versions, newest first, at most
 * five of them, plus the version the module already configures, which is
 * preselected.
 */
module BomVersions {
  import opened Wrappers
  import opened JavaLib

  const NumBomVersionsToShow := 5

  // ---------------------------------------------------------------------------
  // Reverse natural order of strings
  // ---------------------------------------------------------------------------

  /** Sorted by Comparator.reverseOrder(): every element compares >= every later one. */
  predicate Descending(s: seq<string>) {
    forall i, j :: 0 <= i < j < |s| ==> CompareTo(s[i], s[j]) >= 0
  }

  /** x compares >= every element of s. */
  predicate AtLeastAll(x: string, s: seq<string>) {
    forall j :: 0 <= j < |s| ==> CompareTo(x, s[j]) >= 0
  }

  /** Inserts x into a descending list before the first element that is smaller. */
  function Insert(x: string, s: seq<string>): seq<string> {
    if |s| == 0 then [x]
    else if CompareTo(x, s[0]) >= 0 then [x] + s
    else [s[0]] + Insert(x, s[1..])
  }

  /** The reference descending sort (insertion sort). */
  function SortDescending(s: seq<string>): seq<string> {
    if |s| == 0 then [] else Insert(s[0], SortDescending(s[1..]))
  }

  lemma DescendingCons(x: string, s: seq<string>)
    requires Descending(s) && AtLeastAll(x, s)
    ensures Descending([x] + s)
  {
    forall i, j | 0 <= i < j < |[x] + s| ensures CompareTo(([x] + s)[i], ([x] + s)[j]) >= 0 {
      if i > 0 {
        assert ([x] + s)[i] == s[i - 1] && ([x] + s)[j] == s[j - 1];
      }
    }
  }

  lemma {:induction false} InsertBelow(y: string, x: string, s: seq<string>)
    requires AtLeastAll(y, s) && CompareTo(y, x) >= 0
    ensures AtLeastAll(y, Insert(x, s))
  {
    if |s| > 0 && CompareTo(x, s[0]) < 0 {
      InsertBelow(y, x, s[1..]);
      var t := Insert(x, s[1..]);
      assert forall j :: 0 <= j < |t| ==> ([s[0]] + t)[j + 1] == t[j];
    }
  }

  lemma {:induction false} InsertCorrect(x: string, s: seq<string>)
    requires Descending(s)
    ensures Descending(Insert(x, s))
    ensures multiset(Insert(x, s)) == multiset(s) + multiset{x}
  {
    if |s| == 0 {
    } else if CompareTo(x, s[0]) >= 0 {
      forall j | 0 <= j < |s| ensures CompareTo(x, s[j]) >= 0 {
        if j > 0 {
          CompareToTransitive(x, s[0], s[j]);
        }
      }
      DescendingCons(x, s);
    } else {
      var rest := s[1..];
      assert s == [s[0]] + rest;
      assert Descending(rest) by {
        forall i, j | 0 <= i < j < |rest| ensures CompareTo(rest[i], rest[j]) >= 0 {
          assert rest[i] == s[i + 1] && rest[j] == s[j + 1];
        }
      }
      InsertCorrect(x, rest);
      CompareToAntisymmetric(x, s[0]);
      assert AtLeastAll(s[0], rest) by {
        forall j | 0 <= j < |rest| ensures CompareTo(s[0], rest[j]) >= 0 {
          assert rest[j] == s[j + 1];
        }
      }
      InsertBelow(s[0], x, rest);
      DescendingCons(s[0], Insert(x, rest));
    }
  }

  lemma {:induction false} SortDescendingCorrect(s: seq<string>)
    ensures Descending(SortDescending(s))
    ensures multiset(SortDescending(s)) == multiset(s)
  {
    if |s| > 0 {
      SortDescendingCorrect(s[1..]);
      InsertCorrect(s[0], SortDescending(s[1..]));
      assert s == [s[0]] + s[1..];
    }
  }

  lemma DescendingTail(s: seq<string>)
    requires Descending(s) && |s| > 0
    ensures Descending(s[1..])
  {
    forall p, q | 0 <= p < q < |s[1..]| ensures CompareTo(s[1..][p], s[1..][q]) >= 0 {
      assert s[1..][p] == s[p + 1] && s[1..][q] == s[q + 1];
    }
  }

  /** The head of a descending list compares >= each of its elements. */
  lemma DescendingHead(s: seq<string>, x: string)
    requires Descending(s) && x in multiset(s)
    ensures CompareTo(s[0], x) >= 0
  {
    var j :| 0 <= j < |s| && s[j] == x;
    if j > 0 {
      assert CompareTo(s[0], s[j]) >= 0;
    }
  }

  /** Two non-empty descending lists with the same elements start with the same element. */
  lemma DescendingSameHead(a: seq<string>, b: seq<string>)
    requires Descending(a) && Descending(b) && multiset(a) == multiset(b) && |a| > 0
    ensures |b| > 0 && a[0] == b[0]
  {
    assert a[0] in multiset(a);
    assert |b| > 0;
    assert b[0] in multiset(b);
    DescendingHead(b, a[0]);
    DescendingHead(a, b[0]);
    CompareToAntisymmetric(a[0], b[0]);
  }

  lemma MultisetTail(a: seq<string>, b: seq<string>)
    requires |a| > 0 && |b| > 0 && a[0] == b[0] && multiset(a) == multiset(b)
    ensures multiset(a[1..]) == multiset(b[1..])
  {
    assert a == [a[0]] + a[1..] && b == [b[0]] + b[1..];
    assert multiset(a[1..]) == multiset(a) - multiset{a[0]};
    assert multiset(b[1..]) == multiset(b) - multiset{b[0]};
  }

  /**
   * A descending list is determined by its elements: any sort by
   * reverseOrder, stable or not, gives the same list as the reference sort.
   */
  lemma {:induction false} DescendingUnique(a: seq<string>, b: seq<string>)
    requires Descending(a) && Descending(b) && multiset(a) == multiset(b)
    ensures a == b
  {
    if |a| == 0 {
      assert |multiset(b)| == 0;
    } else {
      DescendingSameHead(a, b);
      MultisetTail(a, b);
      DescendingTail(a);
      DescendingTail(b);
      DescendingUnique(a[1..], b[1..]);
      assert a == [a[0]] + a[1..] && b == [b[0]] + b[1..];
    }
  }

  /** sortBomList: sorts the versions in reverse order. */
  method SortBomList(boms: seq<string>) returns (sorted: seq<string>)
    ensures Descending(sorted) && multiset(sorted) == multiset(boms)
    ensures sorted == SortDescending(boms)
  {
    sorted := [];
    for i := 0 to |boms|
      invariant Descending(sorted) && multiset(sorted) == multiset(boms[..i])
    {
      InsertCorrect(boms[i], sorted);
      assert boms[..i + 1] == boms[..i] + [boms[i]];
      sorted := Insert(boms[i], sorted);
    }
    assert boms[..|boms|] == boms;
    SortDescendingCorrect(boms);
    DescendingUnique(sorted, SortDescending(boms));
  }

  // ---------------------------------------------------------------------------
  // The list the combo box shows
  // ---------------------------------------------------------------------------

  /** The fetched versions that are kept: the first five after the descending sort. */
  function TopVersions(available: seq<string>): seq<string> {
    var sorted := SortDescending(available);
    if |sorted| > NumBomVersionsToShow then sorted[..NumBomVersionsToShow] else sorted
  }

  /**
   * The combo box's items, or None when there is nothing to show and the BOM
   * UI is hidden: the kept versions, with the configured version added and
   * the list re-sorted when it is not among them.
   */
  function BomItems(available: seq<string>, configured: Option<string>): Option<seq<string>> {
    if |available| == 0 && configured.None? then None
    else
      var top := TopVersions(available);
      if configured.Some? && configured.value !in top then Some(SortDescending(top + [configured.value]))
      else Some(top)
  }

  lemma DescendingPrefix(s: seq<string>, n: nat)
    requires Descending(s) && n <= |s|
    ensures Descending(s[..n])
  {
    assert forall i :: 0 <= i < n ==> s[..n][i] == s[i];
  }

  /**
   * The kept versions are the min(5, n) largest fetched versions: they are
   * sorted, they all come from the fetched list, and every fetched version
   * left out compares <= every kept one.
   */
  lemma TopVersionsAreLargest(available: seq<string>)
    ensures Descending(TopVersions(available))
    ensures |TopVersions(available)| == if |available| > NumBomVersionsToShow then NumBomVersionsToShow else |available|
    ensures multiset(TopVersions(available)) <= multiset(available)
    ensures forall k, v :: 0 <= k < |TopVersions(available)| && v in multiset(available) - multiset(TopVersions(available))
              ==> CompareTo(TopVersions(available)[k], v) >= 0
  {
    var sorted := SortDescending(available);
    SortDescendingCorrect(available);
    assert |multiset(sorted)| == |multiset(available)|;
    var top := TopVersions(available);
    var n := |top|;
    DescendingPrefix(sorted, n);
    assert sorted == top + sorted[n..];
    assert multiset(sorted) == multiset(top) + multiset(sorted[n..]);
    forall k, v | 0 <= k < n && v in multiset(available) - multiset(top)
      ensures CompareTo(top[k], v) >= 0
    {
      assert v in multiset(sorted[n..]);
      var j :| 0 <= j < |sorted[n..]| && sorted[n..][j] == v;
      assert sorted[n + j] == v && sorted[k] == top[k];
    }
  }

  /**
   * The items are in reverse order; they are the kept versions, plus the
   * configured version exactly when it is not among them; so there are at
   * most six, and none unless something was fetched or configured.
   */
  lemma BomItemsContents(available: seq<string>, configured: Option<string>)
    ensures BomItems(available, configured).None? <==> |available| == 0 && configured.None?
    ensures BomItems(available, configured).Some? ==>
      var items := BomItems(available, configured).value;
      var top := TopVersions(available);
      Descending(items) &&
      |items| <= NumBomVersionsToShow + 1 &&
      |items| > 0 &&
      (configured.None? || configured.value in top ==> items == top) &&
      (configured.Some? && configured.value !in top ==> multiset(items) == multiset(top) + multiset{configured.value})
  {
    TopVersionsAreLargest(available);
    if BomItems(available, configured).Some? {
      var top := TopVersions(available);
      if configured.Some? && configured.value !in top {
        SortDescendingCorrect(top + [configured.value]);
        var items := SortDescending(top + [configured.value]);
        assert |multiset(items)| == |top| + 1;
      }
    }
  }

  /** A configured version is always among the items, and indexOf finds its first occurrence. */
  lemma BomItemsSelectConfigured(available: seq<string>, configured: Option<string>)
    requires configured.Some?
    ensures BomItems(available, configured).Some?
    ensures var items := BomItems(available, configured).value;
            configured.value in items &&
            0 <= IndexOf(items, configured.value) < |items| &&
            items[IndexOf(items, configured.value)] == configured.value
  {
    var top := TopVersions(available);
    if configured.value !in top {
      SortDescendingCorrect(top + [configured.value]);
      assert configured.value in multiset(top + [configured.value]);
    }
  }

  // ---------------------------------------------------------------------------
  // The combo box
  // ---------------------------------------------------------------------------

  class BomComboBox {
    var items: seq<string>
    /** The selected index, -1 when nothing is selected. */
    var selectedIndex: int
    var bomUiHidden: bool

    constructor ()
      ensures items == [] && selectedIndex == -1 && !bomUiHidden
    {
      items := [];
      selectedIndex := -1;
      bomUiHidden := false;
    }

    method HideBomUI()
      modifies this
      ensures bomUiHidden && items == old(items) && selectedIndex == old(selectedIndex)
    {
      bomUiHidden := true;
    }

    /** removeAllItems empties the list and clears the selection. */
    method RemoveAllItems()
      modifies this
      ensures items == [] && selectedIndex == -1 && bomUiHidden == old(bomUiHidden)
    {
      items := [];
      selectedIndex := -1;
    }

    /** addItem appends; the first item added to an empty box with no selection becomes selected. */
    method AddItem(item: string)
      modifies this
      ensures items == old(items) + [item] && bomUiHidden == old(bomUiHidden)
      ensures selectedIndex == if old(items) == [] && old(selectedIndex) == -1 then 0 else old(selectedIndex)
    {
      if items == [] && selectedIndex == -1 {
        selectedIndex := 0;
      }
      items := items + [item];
    }

    method SetSelectedIndex(index: int)
      requires -1 <= index < |items|
      modifies this
      ensures selectedIndex == index && items == old(items) && bomUiHidden == old(bomUiHidden)
    {
      selectedIndex := index;
    }

    /**
     * populateBomVersions with the fetched versions and the module's
     * configured version as inputs. With neither, the BOM UI is hidden and the
     * items are untouched; otherwise the items are replaced by BomItems, and
     * the configured version, when there is one, is selected.
     */
    method PopulateBomVersions(allBomVersions: seq<string>, configuredBomVersion: Option<string>)
      modifies this
      ensures BomItems(allBomVersions, configuredBomVersion).None? ==>
        bomUiHidden && items == old(items) && selectedIndex == old(selectedIndex)
      ensures BomItems(allBomVersions, configuredBomVersion).Some? ==>
        items == BomItems(allBomVersions, configuredBomVersion).value &&
        bomUiHidden == old(bomUiHidden) &&
        selectedIndex == (if configuredBomVersion.Some? then IndexOf(items, configuredBomVersion.value) else 0)
      ensures configuredBomVersion.Some? ==> 0 <= selectedIndex < |items| && items[selectedIndex] == configuredBomVersion.value
    {
      var availableBomVersions := BomVersionList(allBomVersions, configuredBomVersion);
      if availableBomVersions.None? {
        HideBomUI();
      } else {
        var versions := availableBomVersions.value;
        BomItemsContents(allBomVersions, configuredBomVersion);
        RemoveAllItems();
        for i := 0 to |versions|
          invariant items == versions[..i] && bomUiHidden == old(bomUiHidden)
          invariant selectedIndex == if i == 0 then -1 else 0
        {
          AddItem(versions[i]);
        }
        assert versions[..|versions|] == versions;

        if configuredBomVersion.Some? {
          BomItemsSelectConfigured(allBomVersions, configuredBomVersion);
          SetSelectedIndex(IndexOf(versions, configuredBomVersion.value));
        }
      }
    }
  }

  /**
   * The list computation of populateBomVersions: None when nothing was
   * fetched or configured (the UI is then hidden); otherwise the descending
   * sort, cut to NumBomVersionsToShow, with the configured version added and
   * the list re-sorted when indexOf does not find it.
   */
  method BomVersionList(allBomVersions: seq<string>, configuredBomVersion: Option<string>)
    returns (versions: Option<seq<string>>)
    ensures versions == BomItems(allBomVersions, configuredBomVersion)
  {
    var availableBomVersions := allBomVersions;
    if |availableBomVersions| == 0 && configuredBomVersion.None? {
      return None;
    }
    availableBomVersions := SortBomList(availableBomVersions);
    if |availableBomVersions| > NumBomVersionsToShow {
      availableBomVersions := availableBomVersions[..NumBomVersionsToShow];
    }
    if configuredBomVersion.Some? && IndexOf(availableBomVersions, configuredBomVersion.value) == -1 {
      availableBomVersions := availableBomVersions + [configuredBomVersion.value];
      availableBomVersions := SortBomList(availableBomVersions);
    }
    versions := Some(availableBomVersions);
  }

  // ---------------------------------------------------------------------------
  // The renderer
  // ---------------------------------------------------------------------------

  /** BOM_VERSION_DISPLAY_FORMAT "(BOM) %s" up to its placeholder. */
  const BomVersionDisplayPrefix := "(BOM) "

  /** The text the renderer shows for a version. */
  function BomVersionDisplayText(value: string): string {
    BomVersionDisplayPrefix + value
  }

  /** The version a displayed text shows, if it has the renderer's shape. */
  function VersionOfDisplayText(text: string): Option<string> {
    if |text| >= |BomVersionDisplayPrefix| && text[..|BomVersionDisplayPrefix|] == BomVersionDisplayPrefix
    then Some(text[|BomVersionDisplayPrefix|..])
    else None
  }

  /** Display texts and versions correspond one to one. */
  lemma DisplayTextRoundTrip(value: string, text: string)
    ensures VersionOfDisplayText(BomVersionDisplayText(value)) == Some(value)
    ensures VersionOfDisplayText(text) == Some(value) ==> BomVersionDisplayText(value) == text
  {
    var shown := BomVersionDisplayText(value);
    assert shown[..|BomVersionDisplayPrefix|] == BomVersionDisplayPrefix;
    assert shown[|BomVersionDisplayPrefix|..] == value;
    if VersionOfDisplayText(text) == Some(value) {
      assert text == text[..|BomVersionDisplayPrefix|] + text[|BomVersionDisplayPrefix|..];
    }
  }
}
