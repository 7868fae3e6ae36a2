/**
 * `RangeSelector` (index.tsx:90-380): the inline range input, how it
 * accepts edited text and how its focus and dialog flags move.
 */
module Selector {
  import opened Wrappers
  import opened Formula
  import RangeText
  import Dialog

  // ---------------------------------------------------------------------
  // handleInput (index.tsx:139-168)
  // ---------------------------------------------------------------------

  /** The descriptor a reference token is re-encoded from (index.tsx:151-156). */
  function Requalified(token: string, acrossSheet: bool, h: Helpers): (u: UnitRange)
    ensures u.range == h.rangePreProcess(h.deserializeRangeWithSheet(token).range)
    ensures acrossSheet ==> u.unitId == h.deserializeRangeWithSheet(token).unitId
    ensures acrossSheet ==> u.sheetName == h.deserializeRangeWithSheet(token).sheetName
    ensures !acrossSheet ==> u.unitId == "" && u.sheetName == ""
  {
    var unitRange := h.deserializeRangeWithSheet(token);
    var processed := unitRange.(range := h.rangePreProcess(unitRange.range));
    if acrossSheet then processed else processed.(sheetName := "", unitId := "")
  }

  /** One element of the `nodes.map(...)` of index.tsx:144-161: references get a fresh copy. */
  function Reencoded(node: SequenceNode, acrossSheet: bool, h: Helpers): (r: SequenceNode)
    ensures !IsReferenceNode(node) ==> r == node
    ensures IsReferenceNode(node) ==>
      IsReferenceNode(r) && r.startIndex == node.startIndex && r.endIndex == node.endIndex &&
      r.token == First(h.unitRangesToText([Requalified(node.token, acrossSheet, h)], acrossSheet))
  {
    if IsReferenceNode(node) then
      node.(token := First(h.unitRangesToText([Requalified(node.token, acrossSheet, h)], acrossSheet)))
    else node
  }

  /**
   * The pre-processed node sequence (index.tsx:144-161): same length, every
   * string and non-reference node as it was, every reference node a copy that
   * differs only in its token, re-encoded from its requalified descriptor.
   */
  function PreprocessNodes(nodes: seq<SequenceNode>, acrossSheet: bool, h: Helpers): (r: seq<SequenceNode>)
    ensures |r| == |nodes|
    ensures forall i :: 0 <= i < |nodes| && !IsReferenceNode(nodes[i]) ==> r[i] == nodes[i]
    ensures forall i :: 0 <= i < |nodes| && IsReferenceNode(nodes[i]) ==>
      IsReferenceNode(r[i]) && r[i].startIndex == nodes[i].startIndex && r[i].endIndex == nodes[i].endIndex &&
      r[i].token == First(h.unitRangesToText([Requalified(nodes[i].token, acrossSheet, h)], acrossSheet))
  {
    seq(|nodes|, i requires 0 <= i < |nodes| => Reencoded(nodes[i], acrossSheet, h))
  }

  /** What one call of `handleInput` does. */
  datatype InputOutcome = ClearText | Emit(result: string) | NoEffect

  /**
   * `handleInput(text)`: an unlexable text clears the range string; a
   * lexable one is emitted, re-encoded, exactly when `verifyRange` accepts it.
   */
  function InputOutcomeOf(text: string, acrossSheet: bool, h: Helpers): (o: InputOutcome)
    ensures o.ClearText? <==> h.sequenceNodesBuilder(text).None?
    ensures o.Emit? <==> h.sequenceNodesBuilder(text).Some? && h.verifyRange(h.sequenceNodesBuilder(text).value)
    ensures o.Emit? ==>
      o.result == h.sequenceNodeToText(PreprocessNodes(h.sequenceNodesBuilder(text).value, acrossSheet, h))
  {
    match h.sequenceNodesBuilder(text)
    case None => ClearText
    case Some(nodes) =>
      if h.verifyRange(nodes) then Emit(h.sequenceNodeToText(PreprocessNodes(nodes, acrossSheet, h)))
      else NoEffect
  }

  // ---------------------------------------------------------------------
  // The component state
  // ---------------------------------------------------------------------

  /** `initValue`: raw text or a list of ranges. */
  datatype InitValue = TextValue(text: string) | RangeList(ranges: seq<UnitRange>)

  /** The initial range string (index.tsx:113-119). */
  function InitialRangeString(initValue: InitValue, acrossSheet: bool, h: Helpers): (s: string)
    ensures initValue.TextValue? ==> s == initValue.text
    ensures initValue.RangeList? ==> s == RangeText.Join(h.unitRangesToText(initValue.ranges, acrossSheet))
    ensures initValue.RangeList? && WritesRangeTexts(h.unitRangesToText(initValue.ranges, acrossSheet)) ==>
      RangeText.SplitRanges(s) == h.unitRangesToText(initValue.ranges, acrossSheet)
  {
    match initValue
    case TextValue(text) => text
    case RangeList(ranges) =>
      var texts := h.unitRangesToText(ranges, acrossSheet);
      if WritesRangeTexts(texts) then
        RangeText.JoinedTextsSplitBack(texts);
        RangeText.Join(texts)
      else RangeText.Join(texts)
  }

  /** Every text is a non-empty, comma-free range text. */
  predicate WritesRangeTexts(texts: seq<string>)
  {
    forall i :: 0 <= i < |texts| ==> texts[i] != "" && RangeText.COMMA !in texts[i]
  }

  /** The callbacks the component calls on its owner. */
  datatype Notification =
    | Changed(result: string)        // onChange
    | DialogVisibleChanged(visible: bool)  // onRangeSelectorDialogVisibleChange
    | Focused                        // onFocus
    | Blurred                        // onBlur

  /** A command seen by `onCommandExecuted`. */
  datatype Command = SetCellEditVisible | OtherCommand(id: string)

  class RangeSelector {
    const h: Helpers
    /** The `isOnlyOneRange` and `isSupportAcrossSheet` props as last rendered. */
    var isOnlyOneRange: bool
    var isSupportAcrossSheet: bool
    /** `errorText !== undefined` (index.tsx:135). */
    var isError: bool

    var rangeString: string
    var rangeDialogVisible: bool
    var isFocus: bool
    /** `needEmit()` was called: the next token change is to be emitted. */
    var emitRequested: bool
    /** The caret offset last scheduled on the editor. */
    var caretOffset: Option<int>
    /** The owner callbacks called so far, oldest first. */
    var notifications: seq<Notification>

    /** `isNeed` (index.tsx:112): the selector follows the grid selection. */
    function IsNeed(): (need: bool)
      reads this
      ensures need <==> !rangeDialogVisible && isFocus
    {
      !rangeDialogVisible && isFocus
    }

    /** The parsed ranges (index.tsx:131-133), the dialog's initial value. */
    function Ranges(): (r: seq<UnitRange>)
      reads this
      ensures |r| == |RangeText.SplitRanges(rangeString)|
      ensures forall i :: 0 <= i < |r| ==> r[i] == h.deserializeRangeWithSheet(RangeText.SplitRanges(rangeString)[i])
    {
      var pieces := RangeText.SplitRanges(rangeString);
      seq(|pieces|, i requires 0 <= i < |pieces| => h.deserializeRangeWithSheet(pieces[i]))
    }

    /** Mounting the component (index.tsx:90-119). */
    constructor (initValue: InitValue, focusProp: bool, onlyOne: bool, acrossSheet: bool, hasErrorText: bool,
                 helpers: Helpers)
      ensures h == helpers && isOnlyOneRange == onlyOne && isSupportAcrossSheet == acrossSheet
      ensures isError == hasErrorText
      ensures rangeString == InitialRangeString(initValue, acrossSheet, helpers)
      ensures !rangeDialogVisible && isFocus == focusProp
      ensures !emitRequested && caretOffset == None && notifications == []
    {
      h := helpers;
      isOnlyOneRange := onlyOne;
      isSupportAcrossSheet := acrossSheet;
      isError := hasErrorText;
      rangeString := InitialRangeString(initValue, acrossSheet, helpers);
      rangeDialogVisible := false;
      isFocus := focusProp;
      emitRequested := false;
      caretOffset := None;
      notifications := [];
    }

    /** `handleInput(text)` (index.tsx:139-168). */
    method HandleInput(text: string)
      modifies this`rangeString, this`notifications
      ensures h.sequenceNodesBuilder(text).None? ==> rangeString == ""
      ensures h.sequenceNodesBuilder(text).Some? ==> rangeString == old(rangeString)
      ensures InputOutcomeOf(text, isSupportAcrossSheet, h).Emit? ==>
        notifications == old(notifications) + [Changed(InputOutcomeOf(text, isSupportAcrossSheet, h).result)]
      ensures !InputOutcomeOf(text, isSupportAcrossSheet, h).Emit? ==> notifications == old(notifications)
    {
      var nodes := h.sequenceNodesBuilder(text);
      if nodes.Some? {
        var verify := h.verifyRange(nodes.value);
        if verify {
          var preNodes := PreprocessNodes(nodes.value, isSupportAcrossSheet, h);
          var result := h.sequenceNodeToText(preNodes);
          notifications := notifications + [Changed(result)];
        }
      } else {
        rangeString := "";
      }
    }

    /** A live edit of the editor body, `dataStream ?? ''` (index.tsx:250-257). */
    method HandleEditorInput(dataStream: Option<string>)
      modifies this`rangeString, this`emitRequested
      ensures rangeString == RangeText.Sanitize(if dataStream.Some? then dataStream.value else "")
      ensures RangeText.IsSanitized(rangeString)
      ensures emitRequested
    {
      var text := RangeText.Sanitize(if dataStream.Some? then dataStream.value else "");
      rangeString := text;
      emitRequested := true;
    }

    /** A grid selection while `isNeed` holds (index.tsx:209-228). */
    method HandleSheetSelectionChange(text: string, offset: int, isEnd: bool)
      modifies this`rangeString, this`emitRequested, this`caretOffset
      ensures rangeString == text && emitRequested
      ensures caretOffset == if isEnd && offset != -1 then Some(offset) else old(caretOffset)
    {
      rangeString := text;
      emitRequested := true;
      if isEnd && offset != -1 {
        caretOffset := Some(offset);
      }
    }

    /** The owner's `isFocus` prop changes (index.tsx:172-190). */
    method HandleFocusProp(focusProp: bool)
      modifies this`isFocus
      ensures isFocus == focusProp
    {
      isFocus := focusProp;
    }

    /** The owner's `errorText` prop changes; `isError` follows it (index.tsx:135). */
    method HandleErrorTextProp(hasErrorText: bool)
      modifies this`isError
      ensures isError == hasErrorText
    {
      isError := hasErrorText;
    }

    /**
     * The owner's `isOnlyOneRange` or `isSupportAcrossSheet` prop changes:
     * later input (index.tsx:168) and a dialog opened later (364-376) use the
     * new values; the range string is not rewritten (its initialiser at
     * 113-119 runs only at mount).
     */
    method HandleModeProps(onlyOne: bool, acrossSheet: bool)
      modifies this`isOnlyOneRange, this`isSupportAcrossSheet
      ensures isOnlyOneRange == onlyOne && isSupportAcrossSheet == acrossSheet
    {
      isOnlyOneRange := onlyOne;
      isSupportAcrossSheet := acrossSheet;
    }

    /** The "close all editors" command forces a blur (index.tsx:264-272). */
    method HandleCommandExecuted(command: Command)
      modifies this`rangeDialogVisible, this`isFocus, this`notifications
      ensures command == SetCellEditVisible ==> !rangeDialogVisible && !isFocus && !IsNeed()
      ensures command == SetCellEditVisible ==>
        notifications == old(notifications) + [DialogVisibleChanged(false), Blurred]
      ensures command != SetCellEditVisible ==>
        rangeDialogVisible == old(rangeDialogVisible) && isFocus == old(isFocus) && notifications == old(notifications)
    {
      if command == SetCellEditVisible {
        rangeDialogVisible := false;
        notifications := notifications + [DialogVisibleChanged(false)];
        isFocus := false;
        notifications := notifications + [Blurred];
      }
    }

    /** A click in the input (index.tsx:301-311). */
    method HandleClick()
      modifies this`isFocus, this`notifications
      ensures isFocus && notifications == old(notifications) + [Focused]
      ensures IsNeed() == !rangeDialogVisible
    {
      notifications := notifications + [Focused];
      isFocus := true;
    }

    /** The dialog committed `ranges` (index.tsx:313-325). */
    method HandleConfirm(ranges: seq<UnitRange>)
      modifies this`rangeString, this`emitRequested, this`rangeDialogVisible, this`isFocus,
               this`caretOffset, this`notifications
      ensures rangeString == RangeText.Join(h.unitRangesToText(ranges, isSupportAcrossSheet))
      ensures emitRequested && !rangeDialogVisible && isFocus && IsNeed()
      ensures caretOffset == Some(|rangeString|)
      ensures notifications == old(notifications) + [DialogVisibleChanged(false)]
    {
      var text := RangeText.Join(h.unitRangesToText(ranges, isSupportAcrossSheet));
      emitRequested := true;
      rangeString := text;
      rangeDialogVisible := false;
      notifications := notifications + [DialogVisibleChanged(false)];
      isFocus := true;
      caretOffset := Some(|text|);
    }

    /** The dialog was cancelled (index.tsx:327-334). */
    method HandleClose()
      modifies this`rangeDialogVisible, this`isFocus, this`notifications
      ensures !rangeDialogVisible && isFocus && IsNeed()
      ensures notifications == old(notifications) + [DialogVisibleChanged(false)]
    {
      rangeDialogVisible := false;
      notifications := notifications + [DialogVisibleChanged(false)];
      isFocus := true;
    }

    /** The select-range icon opens the dialog unless an error is shown (index.tsx:336-346). */
    method HandleOpenModal()
      modifies this`rangeDialogVisible, this`isFocus, this`notifications
      ensures !isError ==> rangeDialogVisible && !isFocus && !IsNeed()
      ensures !isError ==> notifications == old(notifications) + [DialogVisibleChanged(true)]
      ensures isError ==>
        rangeDialogVisible == old(rangeDialogVisible) && isFocus == old(isFocus) && notifications == old(notifications)
    {
      if !isError {
        rangeDialogVisible := true;
        notifications := notifications + [DialogVisibleChanged(true)];
        isFocus := false;
      }
    }

    /** The dialog's confirm button: the dialog's filtered rows are committed to the selector (index.tsx:524-527, 313-325). */
    method ConfirmDialog(d: Dialog.RangeSelectorDialog)
      modifies this`rangeString, this`emitRequested, this`rangeDialogVisible, this`isFocus,
               this`caretOffset, this`notifications
      ensures rangeString == RangeText.Join(h.unitRangesToText(Dialog.ConfirmedRanges(d.ranges, d.h), isSupportAcrossSheet))
      ensures emitRequested && !rangeDialogVisible && isFocus && IsNeed()
      ensures caretOffset == Some(|rangeString|)
      ensures notifications == old(notifications) + [DialogVisibleChanged(false)]
    {
      var committed := d.Confirm();
      HandleConfirm(committed);
    }

    /** The dialog's cancel button: its rows are cleared, then the selector closes it (index.tsx:426-431, 327-334). */
    method CancelDialog(d: Dialog.RangeSelectorDialog)
      modifies d`ranges, d`skipLastEnabled, this`rangeDialogVisible, this`isFocus, this`notifications
      ensures d.ranges == [] && d.skipLastEnabled
      ensures !rangeDialogVisible && isFocus && IsNeed()
      ensures notifications == old(notifications) + [DialogVisibleChanged(false)]
    {
      d.HandleClose();
      HandleClose();
    }

    /** The dialog mounted while `rangeDialogVisible` holds (index.tsx:364-376). */
    method OpenDialog(skipLast: bool) returns (d: Dialog.RangeSelectorDialog)
      ensures fresh(d)
      ensures d.ranges == Dialog.SeedRows(Ranges(), isOnlyOneRange, isSupportAcrossSheet, h)
      ensures d.focusIndex == |d.ranges| - 1
      ensures d.h == h && d.isOnlyOneRange == isOnlyOneRange && d.isSupportAcrossSheet == isSupportAcrossSheet
      ensures d.skipLastEnabled == (skipLast || d.ShowsNoRange())
    {
      d := new Dialog.RangeSelectorDialog(Ranges(), isOnlyOneRange, isSupportAcrossSheet, h, skipLast);
    }
  }

  /**
   * Ranges committed from the dialog, when the codec writes each as a
   * non-empty comma-free text, are read back from the new range string as
   * exactly those texts (index.tsx:314 then 132).
   */
  lemma ConfirmedTextsReadBack(ranges: seq<UnitRange>, acrossSheet: bool, h: Helpers)
    requires forall i :: 0 <= i < |h.unitRangesToText(ranges, acrossSheet)| ==>
      h.unitRangesToText(ranges, acrossSheet)[i] != "" && RangeText.COMMA !in h.unitRangesToText(ranges, acrossSheet)[i]
    ensures RangeText.SplitRanges(RangeText.Join(h.unitRangesToText(ranges, acrossSheet))) == h.unitRangesToText(ranges, acrossSheet)
  {
    RangeText.JoinedTextsSplitBack(h.unitRangesToText(ranges, acrossSheet));
  }
}
