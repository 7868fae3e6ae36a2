/**
 * `RangeSelectorDialog` (index.tsx:382-564): the editable list of range
 * rows shown when the user asks to pick ranges in a dialog.
 */
module Dialog {
  import opened Wrappers
  import opened Formula
  import RangeText

  /** The rows the dialog opens with (index.tsx:404-414). */
  function SeedRows(init: seq<UnitRange>, isOnlyOneRange: bool, acrossSheet: bool, h: Helpers): (rows: seq<string>)
    ensures isOnlyOneRange && init == [] ==> rows == [""]
    ensures isOnlyOneRange && init != [] ==> rows == h.unitRangesToText([init[0]], acrossSheet)
    ensures isOnlyOneRange && init != [] && |h.unitRangesToText([init[0]], acrossSheet)| == 1 ==> |rows| == 1
    ensures !isOnlyOneRange ==> rows == h.unitRangesToText(init, acrossSheet)
  {
    if isOnlyOneRange then
      (if init != [] then h.unitRangesToText([init[0]], acrossSheet) else [""])
    else h.unitRangesToText(init, acrossSheet)
  }

  /**
   * In one-range mode only the first initial range matters, and the dialog
   * opens with one row whenever the codec writes that range as one text.
   */
  lemma SeedRowsOnlyOne(init: seq<UnitRange>, other: seq<UnitRange>, acrossSheet: bool, h: Helpers)
    requires init != [] && other != [] && init[0] == other[0]
    ensures SeedRows(init, true, acrossSheet, h) == SeedRows(other, true, acrossSheet, h)
    ensures |h.unitRangesToText([init[0]], acrossSheet)| == 1 ==> |SeedRows(other, true, acrossSheet, h)| == 1
  {
  }

  /** `s` with position `index` taken out; `s` itself when there is no such position. */
  function Without(s: seq<string>, index: int): (r: seq<string>)
    ensures 0 <= index < |s| ==> |r| == |s| - 1
    ensures 0 <= index < |s| ==> forall j :: 0 <= j < index ==> r[j] == s[j]
    ensures 0 <= index < |s| ==> forall j :: index <= j < |r| ==> r[j] == s[j + 1]
    ensures !(0 <= index < |s|) ==> r == s
  {
    if 0 <= index < |s| then s[..index] + s[index + 1..] else s
  }

  /** The row list `handleRangeRemove(index)` leaves (index.tsx:447-458). */
  function RowsAfterRemove(rows: seq<string>, index: int): (r: seq<string>)
    ensures |rows| >= 1 ==> |r| >= 1
    ensures |rows| == 1 ==> r == rows
    ensures |rows| != 1 && 0 <= index < |rows| ==> r == Without(rows, index)
    ensures |rows| != 1 && !(0 <= index < |rows|) ==> r == rows
  {
    if |rows| == 1 then rows else Without(rows, index)
  }

  /**
   * The updater `handleRangeRemove` hands to `rangesSet` (index.tsx:447-458):
   * a single row is returned as it is; otherwise a `forEach` copies every row
   * whose position differs from `index`.
   */
  method RemovedRows(v: seq<string>, index: int) returns (result: seq<string>)
    ensures result == RowsAfterRemove(v, index)
  {
    if |v| == 1 {
      return v;
    }
    result := [];
    var i := 0;
    while i < |v|
      invariant 0 <= i <= |v|
      invariant result == Without(v[..i], index)
    {
      assert v[..i + 1] == v[..i] + [v[i]];
      if index != i {
        if 0 <= index < i {
          assert v[..i + 1][..index] == v[..i][..index];
          assert v[..i + 1][index + 1..] == v[..i][index + 1..] + [v[i]];
        }
        result := result + [v[i]];
      } else {
        assert v[..i + 1][..index] == v[..i];
        assert v[..i + 1][index + 1..] == [];
      }
      i := i + 1;
    }
    assert v[..i] == v;
  }

  /** The rows a grid selection sets (index.tsx:471-477). */
  function SelectionRows(rangeText: string, isOnlyOneRange: bool): (rows: seq<string>)
    ensures isOnlyOneRange ==> |rows| == 1
    ensures isOnlyOneRange ==> (rows[0] == "" <==> RangeText.SplitRanges(rangeText) == [])
    ensures isOnlyOneRange && rows[0] != "" ==> rows[0] == RangeText.SplitRanges(rangeText)[0]
    ensures !isOnlyOneRange ==> rows == RangeText.SplitRanges(rangeText)
    ensures forall i :: 0 <= i < |rows| ==> RangeText.COMMA !in rows[i]
  {
    var pieces := RangeText.SplitRanges(rangeText);
    if isOnlyOneRange then [if pieces != [] then pieces[0] else ""] else pieces
  }

  /** The confirm test of one row's token sequence (index.tsx:526). */
  predicate IsSingleReference(nodes: Option<seq<SequenceNode>>): (single: bool)
    ensures single ==> nodes.Some? && |nodes.value| == 1 && IsReferenceNode(nodes.value[0])
    ensures nodes.None? || |nodes.value| != 1 ==> !single
    ensures nodes.Some? && |nodes.value| == 1 && nodes.value[0].Text? ==> !single
  {
    nodes.Some? && |nodes.value| == 1 && IsReferenceNode(nodes.value[0])
  }

  function Confirmable(h: Helpers): string -> bool
  {
    (text: string) => IsSingleReference(h.sequenceNodesBuilder(text))
  }

  /** The rows the confirm button keeps (index.tsx:524-526). */
  function KeptRows(rows: seq<string>, h: Helpers): (kept: seq<string>)
    ensures |kept| <= |rows|
    ensures forall i :: 0 <= i < |kept| ==> IsSingleReference(h.sequenceNodesBuilder(kept[i]))
  {
    RangeText.Filter(Confirmable(h), rows)
  }

  /**
   * A row is kept exactly when it lexes to one reference node, as many
   * times as it occurs, and the kept rows keep their order.
   */
  lemma KeptRowsExactly(rows: seq<string>, h: Helpers)
    ensures forall text :: text in KeptRows(rows, h) <==>
      (text in rows && var nodes := h.sequenceNodesBuilder(text);
       nodes.Some? && |nodes.value| == 1 && nodes.value[0].Node? && nodes.value[0].nodeType == Reference)
    ensures forall text ::
      multiset(KeptRows(rows, h))[text] == (if IsSingleReference(h.sequenceNodesBuilder(text)) then multiset(rows)[text] else 0)
    ensures RangeText.IsSubsequence(KeptRows(rows, h), rows)
  {
    RangeText.FilterMembers(Confirmable(h), rows);
    RangeText.FilterCounts(Confirmable(h), rows);
    RangeText.FilterIsSubsequence(Confirmable(h), rows);
  }

  /** A kept row decoded and pre-processed (index.tsx:527). */
  function Committed(text: string, h: Helpers): (u: UnitRange)
    ensures u.unitId == h.deserializeRangeWithSheet(text).unitId
    ensures u.sheetName == h.deserializeRangeWithSheet(text).sheetName
    ensures u.range == h.rangePreProcess(h.deserializeRangeWithSheet(text).range)
  {
    var unitRange := h.deserializeRangeWithSheet(text);
    unitRange.(range := h.rangePreProcess(unitRange.range))
  }

  /** The ranges the confirm button hands to the selector (index.tsx:524-527). */
  function ConfirmedRanges(rows: seq<string>, h: Helpers): (r: seq<UnitRange>)
    ensures |r| == |KeptRows(rows, h)| <= |rows|
    ensures forall i :: 0 <= i < |r| ==> r[i] == Committed(KeptRows(rows, h)[i], h)
  {
    var kept := KeptRows(rows, h);
    seq(|kept|, i requires 0 <= i < |kept| => Committed(kept[i], h))
  }

  /** The dialog's state: its rows, the focused row and the render service's skip-last flag. */
  class RangeSelectorDialog {
    const h: Helpers
    const isOnlyOneRange: bool
    const isSupportAcrossSheet: bool
    var ranges: seq<string>
    var focusIndex: int
    var skipLastEnabled: bool

    /** Under "only one range" there is never more than one row. */
    ghost predicate Capped()
      reads this
    {
      isOnlyOneRange ==> |ranges| <= 1
    }

    /** The condition of the effect at index.tsx:491-495. */
    predicate ShowsNoRange()
      reads this
    {
      |ranges| == 0 || (|ranges| == 1 && ranges[0] == "")
    }

    /**
     * Mounting the dialog (index.tsx:404-416, 491-495); `skipLast` is the
     * render service's flag at that moment.
     */
    constructor (initValue: seq<UnitRange>, onlyOne: bool, acrossSheet: bool, helpers: Helpers, skipLast: bool)
      ensures h == helpers && isOnlyOneRange == onlyOne && isSupportAcrossSheet == acrossSheet
      ensures ranges == SeedRows(initValue, onlyOne, acrossSheet, helpers)
      ensures focusIndex == |ranges| - 1
      ensures skipLastEnabled == (skipLast || ShowsNoRange())
    {
      h := helpers;
      isOnlyOneRange := onlyOne;
      isSupportAcrossSheet := acrossSheet;
      var rows := SeedRows(initValue, onlyOne, acrossSheet, helpers);
      ranges := rows;
      focusIndex := |rows| - 1;
      skipLastEnabled := skipLast;
      new;
      SyncSkipLast();
    }

    /** The effect that runs after each new row array (index.tsx:491-495). */
    method SyncSkipLast()
      modifies this`skipLastEnabled
      ensures skipLastEnabled == (old(skipLastEnabled) || ShowsNoRange())
    {
      if ShowsNoRange() {
        skipLastEnabled := true;
      }
    }

    /** An input change in row `index` (index.tsx:432-443, 545). */
    method HandleRangeInput(index: int, value: string)
      requires 0 <= index < |ranges|
      modifies this`ranges, this`skipLastEnabled
      ensures |ranges| == |old(ranges)| && ranges[index] == value
      ensures forall j :: 0 <= j < |ranges| && j != index ==> ranges[j] == old(ranges)[j]
      ensures skipLastEnabled == (value == "")
      ensures old(Capped()) ==> Capped()
    {
      skipLastEnabled := value == "";
      var result := ranges;
      result := result[index := value];
      ranges := result;
      SyncSkipLast();
    }

    /** The delete button of row `index` (index.tsx:445-459). */
    method HandleRangeRemove(index: int)
      modifies this`ranges, this`skipLastEnabled
      ensures ranges == RowsAfterRemove(old(ranges), index)
      ensures |old(ranges)| >= 1 ==> |ranges| >= 1
      ensures skipLastEnabled == (|old(ranges)| != 1 && ShowsNoRange())
      ensures old(Capped()) ==> Capped()
    {
      skipLastEnabled := false;
      var result := RemovedRows(ranges, index);
      if |ranges| != 1 {
        // a fresh array: the effect of index.tsx:491-495 runs again
        ranges := result;
        SyncSkipLast();
      }
    }

    /** The add button, shown only without the one-range cap (index.tsx:461-468, 552-559). */
    method HandleRangeAdd()
      requires !isOnlyOneRange
      modifies this`ranges, this`focusIndex, this`skipLastEnabled
      ensures ranges == old(ranges) + [""]
      ensures focusIndex == |ranges| - 1
      ensures skipLastEnabled
    {
      skipLastEnabled := true;
      ranges := ranges + [""];
      focusIndex := |ranges| - 1;
      SyncSkipLast();
    }

    /** A row's input gains focus (index.tsx:543). */
    method FocusRow(index: int)
      modifies this`focusIndex
      ensures focusIndex == index
    {
      focusIndex := index;
    }

    /** A grid selection while the dialog is open (index.tsx:470-478). */
    method HandleSheetSelectionChange(rangeText: string)
      modifies this`ranges, this`skipLastEnabled
      ensures ranges == SelectionRows(rangeText, isOnlyOneRange)
      ensures isOnlyOneRange ==> |ranges| == 1
      ensures skipLastEnabled == ShowsNoRange()
      ensures Capped()
    {
      skipLastEnabled := false;
      ranges := SelectionRows(rangeText, isOnlyOneRange);
      SyncSkipLast();
    }

    /** Cancel: the rows are discarded (index.tsx:426-431). */
    method HandleClose()
      modifies this`ranges, this`skipLastEnabled
      ensures ranges == [] && skipLastEnabled
      ensures Capped()
    {
      ranges := [];
      SyncSkipLast();
    }

    /** The confirm button: the ranges committed to the selector (index.tsx:524-527). */
    method Confirm() returns (committed: seq<UnitRange>)
      ensures committed == ConfirmedRanges(ranges, h)
    {
      committed := ConfirmedRanges(ranges, h);
    }
  }
}
