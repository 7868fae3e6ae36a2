# Range selector: a Dafny model

This project models the range-selector component of the spreadsheet formula UI
(`packages/sheets-formula-ui/src/views/range-selector/index.tsx`). The component
is an inline input for one or more cell-range references, plus a dialog for
editing a list of ranges one row each. With React, rendering and the render
engine taken out, three pieces of logic remain. The model covers each of them:

- **Text handling** (`range_text.dfy`, module `RangeText`). This is the
  sanitiser applied to each live edit of the editor body. It deletes line
  breaks, collapses comma runs and drops one leading comma. The module also
  holds the comma split with empty pieces dropped, which turns the canonical
  range string into range texts. Both are pure functions over `seq<char>`.
  They come with split/join round trips and idempotence of the sanitiser.
  Collapsing commas and dropping the leading comma never change the range
  list the text denotes; removing line breaks can, since a line break is part
  of a piece.
- **The dialog row list** (`dialog.dfy`, module `Dialog`). The class
  `RangeSelectorDialog` holds the rows (`ranges`), `focusIndex` and the render
  service's skip-last flag. Its methods model seeding, replace, remove, add,
  grid selection and cancel. The confirm filter and the `forEach` remove loop
  are a pure function and a loop method, each with its own contract.
- **The inline selector** (`selector.dfy`, module `Selector`). `handleInput` is
  a pure outcome function. The reference-node re-encoding is modelled with
  value semantics, so cloning is automatic and the lexer's result is never
  changed. The class `RangeSelector` holds `rangeString`,
  `rangeDialogVisible`, `isFocus` and `isNeed` (`IsNeed()`, which is
  `!rangeDialogVisible && isFocus`). It also logs the owner callbacks (`onChange`,
  `onRangeSelectorDialogVisibleChange`, `onFocus`, `onBlur`) as a sequence of
  notifications.

`formula.dfy` (module `Formula`) declares the formula-engine types the
component handles: sequence nodes, `IRange` and `IUnitRangeName`. It also
declares the `Helpers` record. That record holds the imported helpers
`sequenceNodesBuilder`, `deserializeRangeWithSheet`, `rangePreProcess`,
`unitRangesToText`, `sequenceNodeToText` and `verifyRange`. Their source files
are not part of this model. They are arbitrary function values, and no laws
are assumed about them. Every property below holds whatever they compute,
except where a lemma's `requires` names what it needs of `unitRangesToText`.

Notes on the source's behaviour:

- The dialog's replace writes the row whose input changed (`index`), not the
  row at `focusIndex`.
- The one-range cap on add and remove comes from the UI: it hides the add and
  delete buttons (547, 552). The handlers themselves do not check the cap.
  So `HandleRangeAdd` requires `!isOnlyOneRange` (the add button exists only
  then), and `HandleRangeRemove` accepts any call.
- The confirm filter only checks for one node of kind REFERENCE. It does not
  decode the token or test whether the range is degenerate.
- `handleInput` clears the range string only when the lexer returns `null`.
  Text that lexes but fails `verifyRange` leaves the state alone and emits
  nothing.

## Model

| member | source | states |
|---|---|---|
| `RangeText.Filter` | packages/sheets-formula-ui/src/views/range-selector/index.tsx:132 | every survivor satisfies the predicate and there are no more survivors than inputs |
| `RangeText.FilterMembers` | packages/sheets-formula-ui/src/views/range-selector/index.tsx:132 | a value survives iff it occurs in the input and satisfies the predicate |
| `RangeText.FilterCounts` | packages/sheets-formula-ui/src/views/range-selector/index.tsx:132 | each kept value survives exactly as often as it occurs; other values do not survive |
| `RangeText.FilterIsSubsequence` | packages/sheets-formula-ui/src/views/range-selector/index.tsx:132 | the survivors keep their original left-to-right order |
| `RangeText.Split` | packages/sheets-formula-ui/src/views/range-selector/index.tsx:132 | `split(',')` yields at least one piece and no piece contains a comma |
| `RangeText.JoinSplit` | packages/sheets-formula-ui/src/views/range-selector/index.tsx:132 | joining the pieces of a split with commas gives back the string |
| `RangeText.Join` | packages/sheets-formula-ui/src/views/range-selector/index.tsx:117 | the join of no texts is empty; it starts with the first text; it holds a comma iff there are two texts or more, or the one text holds a comma |
| `RangeText.SplitJoin` | packages/sheets-formula-ui/src/views/range-selector/index.tsx:117 | splitting a comma join of comma-free texts gives back those texts |
| `RangeText.SplitRanges` | packages/sheets-formula-ui/src/views/range-selector/index.tsx:132 | every range text is non-empty and comma-free |
| `RangeText.SplitRangesOrder` | packages/sheets-formula-ui/src/views/range-selector/index.tsx:132 | the range texts are exactly the non-empty pieces of the split, each as often as it occurs, in their original order |
| `RangeText.JoinSplitRanges` | packages/sheets-formula-ui/src/views/range-selector/index.tsx:132 | a well-formed range list (no leading, trailing or doubled comma) is the comma join of its range texts |
| `RangeText.JoinedTextsSplitBack` | packages/sheets-formula-ui/src/views/range-selector/index.tsx:117 | non-empty comma-free texts joined with commas split back into exactly those texts |
| `RangeText.StripLineBreaks` | packages/sheets-formula-ui/src/views/range-selector/index.tsx:253 | the result holds no `\n` and no `\r` |
| `RangeText.CollapseCommas` | packages/sheets-formula-ui/src/views/range-selector/index.tsx:253 | no two commas are adjacent; no character is added; a comma survives if there was one; the result starts with a comma iff the input does |
| `RangeText.CollapseCommasKeepsPieces` | packages/sheets-formula-ui/src/views/range-selector/index.tsx:253 | collapsing keeps the first piece, the last piece and the range list, so each run of commas leaves exactly one comma |
| `RangeText.DropLeadingComma` | packages/sheets-formula-ui/src/views/range-selector/index.tsx:253 | a leading comma is removed and nothing else changes; text without one is unchanged; without doubled commas the result does not start with a comma |
| `RangeText.Sanitize` | packages/sheets-formula-ui/src/views/range-selector/index.tsx:253 | the sanitised text has no line break, no two adjacent commas and no leading comma |
| `RangeText.SanitizeFixes` | packages/sheets-formula-ui/src/views/range-selector/index.tsx:253 | text that is already sanitised is left unchanged |
| `RangeText.SanitizeIdempotent` | packages/sheets-formula-ui/src/views/range-selector/index.tsx:253 | sanitising twice equals sanitising once |
| `RangeText.CollapseCommasKeepsRanges` | packages/sheets-formula-ui/src/views/range-selector/index.tsx:253 | collapsing comma runs changes neither the first piece nor the range list |
| `RangeText.SanitizeKeepsRanges` | packages/sheets-formula-ui/src/views/range-selector/index.tsx:253 | the sanitised text denotes the same range list as the text with only line breaks removed |
| `Dialog.SeedRows` | packages/sheets-formula-ui/src/views/range-selector/index.tsx:404-414 | in one-range mode no initial range gives the single row `''`, and otherwise the rows are the codec's texts of the first range alone (one row when it writes that range as one text); without the cap the rows are the texts of all initial ranges |
| `Dialog.SeedRowsOnlyOne` | packages/sheets-formula-ui/src/views/range-selector/index.tsx:404-414 | in one-range mode only the first initial range determines the rows, whatever the codec writes; there is exactly one row when it writes that range as one text |
| `Dialog.Without` | packages/sheets-formula-ui/src/views/range-selector/index.tsx:451-456 | removing a valid position shortens the list by one, keeps the earlier rows and shifts the later ones down in order; an invalid position changes nothing |
| `Dialog.RowsAfterRemove` | packages/sheets-formula-ui/src/views/range-selector/index.tsx:447-458 | a single row is kept as it is; otherwise position `index` is removed; a non-empty list never becomes empty |
| `Dialog.RemovedRows` | packages/sheets-formula-ui/src/views/range-selector/index.tsx:447-458 | the `forEach` copy loop yields exactly the rows of `RowsAfterRemove` |
| `Dialog.SelectionRows` | packages/sheets-formula-ui/src/views/range-selector/index.tsx:471-477 | in one-range mode exactly one row: the first range text, or `''` iff there is none; otherwise all range texts of the selection |
| `Dialog.IsSingleReference` | packages/sheets-formula-ui/src/views/range-selector/index.tsx:526 | holds only of a non-null sequence of exactly one node, which is a REFERENCE node; a null sequence, another length or a plain string fails |
| `Dialog.KeptRows` | packages/sheets-formula-ui/src/views/range-selector/index.tsx:524-526 | no more kept rows than rows, and every kept row lexes to a single reference |
| `Dialog.KeptRowsExactly` | packages/sheets-formula-ui/src/views/range-selector/index.tsx:524-526 | a row is kept iff its token sequence is non-null with one node of kind REFERENCE; each kept row survives as often as it occurs, and the kept rows stay in order |
| `Dialog.Committed` | packages/sheets-formula-ui/src/views/range-selector/index.tsx:527 | a kept row is decoded with its unit and sheet as decoded and its range pre-processed |
| `Dialog.ConfirmedRanges` | packages/sheets-formula-ui/src/views/range-selector/index.tsx:524-527 | one committed range per kept row, in the kept rows' order, and never more than there are rows |
| `Dialog.RangeSelectorDialog.constructor` | packages/sheets-formula-ui/src/views/range-selector/index.tsx:404-416 | the rows are the seeded rows and `focusIndex` is the last row's index (`rows.length - 1`) |
| `Dialog.RangeSelectorDialog.SyncSkipLast` | packages/sheets-formula-ui/src/views/range-selector/index.tsx:491-495 | skip-last is switched on when there is no row or one empty row, and otherwise left alone |
| `Dialog.RangeSelectorDialog.HandleRangeInput` | packages/sheets-formula-ui/src/views/range-selector/index.tsx:432-443 | only row `index` changes, to `value`; the length stays the same; skip-last is on exactly when `value` is empty; the one-range cap is kept |
| `Dialog.RangeSelectorDialog.HandleRangeRemove` | packages/sheets-formula-ui/src/views/range-selector/index.tsx:445-459 | the rows become `RowsAfterRemove`, so at least one row survives; skip-last is on only when a new array with no range resulted |
| `Dialog.RangeSelectorDialog.HandleRangeAdd` | packages/sheets-formula-ui/src/views/range-selector/index.tsx:461-468 | `''` is appended and earlier rows are unchanged; `focusIndex` becomes the new last index; skip-last is on |
| `Dialog.RangeSelectorDialog.FocusRow` | packages/sheets-formula-ui/src/views/range-selector/index.tsx:543 | focusing a row's input makes it the focused row |
| `Dialog.RangeSelectorDialog.HandleSheetSelectionChange` | packages/sheets-formula-ui/src/views/range-selector/index.tsx:470-478 | the rows become the selection's rows (exactly one under the cap); skip-last is on iff no range is shown |
| `Dialog.RangeSelectorDialog.HandleClose` | packages/sheets-formula-ui/src/views/range-selector/index.tsx:426-431 | cancelling discards every row and switches skip-last on |
| `Dialog.RangeSelectorDialog.Confirm` | packages/sheets-formula-ui/src/views/range-selector/index.tsx:524-527 | the committed ranges are the confirmed ranges of the current rows |
| `Selector.Requalified` | packages/sheets-formula-ui/src/views/range-selector/index.tsx:151-156 | the range is pre-processed; without cross-sheet support both the sheet name and the unit id are emptied, and with it both are kept |
| `Selector.Reencoded` | packages/sheets-formula-ui/src/views/range-selector/index.tsx:144-161 | a string or non-reference node is returned as it is; a reference node keeps its kind and offsets and gets the re-encoded token of its requalified descriptor |
| `Selector.PreprocessNodes` | packages/sheets-formula-ui/src/views/range-selector/index.tsx:144-161 | same length; strings and non-reference nodes unchanged; each reference node keeps its kind and offsets, and its token is the re-encoding of its requalified descriptor |
| `Selector.InputOutcomeOf` | packages/sheets-formula-ui/src/views/range-selector/index.tsx:139-168 | the text is cleared iff the lexer returns `null`; a result is emitted iff the nodes are non-null and pass `verifyRange`, and that result is the text of the pre-processed nodes |
| `Selector.InitialRangeString` | packages/sheets-formula-ui/src/views/range-selector/index.tsx:113-119 | a text value is taken as it is; a range list gives the comma join of the codec's texts, which splits back into exactly those texts when they are non-empty and comma-free |
| `Selector.RangeSelector.IsNeed` | packages/sheets-formula-ui/src/views/range-selector/index.tsx:112 | `isNeed` holds iff the dialog is closed and the input is focused |
| `Selector.RangeSelector.Ranges` | packages/sheets-formula-ui/src/views/range-selector/index.tsx:131-133 | one decoded range per range text of the range string, in order |
| `Selector.RangeSelector.constructor` | packages/sheets-formula-ui/src/views/range-selector/index.tsx:107-119 | the range string is the initial text, or the comma join of the initial ranges' texts; the dialog is closed and focus follows the prop |
| `Selector.RangeSelector.HandleInput` | packages/sheets-formula-ui/src/views/range-selector/index.tsx:139-168 | a `null` token sequence sets the range string to `''`; `onChange` is added to the log exactly when the outcome is an emission, with that result |
| `Selector.RangeSelector.HandleEditorInput` | packages/sheets-formula-ui/src/views/range-selector/index.tsx:250-257 | the range string becomes the sanitised body text, which is sanitised, and an emission is requested |
| `Selector.RangeSelector.HandleSheetSelectionChange` | packages/sheets-formula-ui/src/views/range-selector/index.tsx:209-228 | the range string becomes the selection text; at gesture end an offset other than -1 is scheduled as the caret |
| `Selector.RangeSelector.HandleFocusProp` | packages/sheets-formula-ui/src/views/range-selector/index.tsx:172-190 | the focus flag follows the `isFocus` prop |
| `Selector.RangeSelector.HandleErrorTextProp` | packages/sheets-formula-ui/src/views/range-selector/index.tsx:135 | `isError` follows the `errorText` prop, so a later `HandleOpenModal` sees the new value |
| `Selector.RangeSelector.HandleModeProps` | packages/sheets-formula-ui/src/views/range-selector/index.tsx:168 | the one-range and cross-sheet props take their new values and nothing else changes |
| `Selector.RangeSelector.HandleCommandExecuted` | packages/sheets-formula-ui/src/views/range-selector/index.tsx:264-272 | the close-editors command forces the dialog closed and the input unfocused (so `isNeed` is false) and reports both; other commands change nothing |
| `Selector.RangeSelector.HandleClick` | packages/sheets-formula-ui/src/views/range-selector/index.tsx:301-311 | a click reports focus and sets the focus flag |
| `Selector.RangeSelector.HandleConfirm` | packages/sheets-formula-ui/src/views/range-selector/index.tsx:313-325 | the range string becomes the comma join of the committed ranges' texts; the dialog closes and focus returns (`isNeed` holds), with the caret at the end |
| `Selector.RangeSelector.HandleClose` | packages/sheets-formula-ui/src/views/range-selector/index.tsx:327-334 | the dialog closes, focus returns and `isNeed` holds |
| `Selector.RangeSelector.HandleOpenModal` | packages/sheets-formula-ui/src/views/range-selector/index.tsx:336-346 | without an error the dialog opens and focus leaves (`isNeed` is false); with an error nothing changes |
| `Selector.RangeSelector.ConfirmDialog` | packages/sheets-formula-ui/src/views/range-selector/index.tsx:524-527 | confirming the dialog sets the range string to the comma join of the texts of the dialog's `ConfirmedRanges`; the dialog closes, focus returns and the caret goes to the end |
| `Selector.RangeSelector.CancelDialog` | packages/sheets-formula-ui/src/views/range-selector/index.tsx:426-431 | cancelling clears the dialog's rows and sets its skip-last flag, then the selector's dialog closes and focus returns |
| `Selector.RangeSelector.OpenDialog` | packages/sheets-formula-ui/src/views/range-selector/index.tsx:364-376 | the dialog gets the selector's helpers, one-range cap and cross-sheet flag, is seeded from the parsed ranges of the current range string, focuses its last row and applies the mount effect to skip-last |
| `Selector.ConfirmedTextsReadBack` | packages/sheets-formula-ui/src/views/range-selector/index.tsx:314 | when the codec writes each committed range as a non-empty comma-free text, the new range string splits back into exactly those texts |

## Left out

- React rendering and JSX (348-380, 512-563), the `handleOutClick` DOM containment test (122-128) and editor registration (278-297): they hold no logic beyond wiring.
- `setTimeout` deferrals (176-189, 218-223, 306-310, 320-324, 330-333, 340-344, 428-430): the deferred updates are applied at once (`CancelDialog` runs the selector's close right after the dialog's), and timer cancellation on unmount is not modelled.
- The rxjs `throttleTime(100)` on editor input (252) and the `focusStyle$` subscription that closes the dialog (497-510): timing and streams are not modelled. Each input event is one call of `HandleEditorInput`.
- The hooks whose bodies are not shown (`useEmitChange`, `useFocus`, `useSheetSelectionChange`, `useSwitchSheet`, `useVerify`, `useRefactorEffect`, `useOnlyOneRange`, `useEditorInput`, `useLeftAndRightArrow`, `useRefocus`, `useResetSelection`, `useResize`, `useFirstHighlightDoc`, `useFormulaToken`, `useColor`, the highlight hooks). `needEmit()` is recorded as the flag `emitRequested`. Focusing or blurring the editor widget, checking its scroll bar, and highlighting are not modelled.
- `sequenceNodesBuilder`, `deserializeRangeWithSheet`, `rangePreProcess`, `unitRangesToText`, `sequenceNodeToText` and `verifyRange` are uninterpreted: no round-trip or normalisation law is claimed for them.
- `IRange` is reduced to its four bounds. The component never inspects the range type or the absolute-reference flags.
- `Selector.Reencoded`: when `unitRangesToText` returns an empty list, the source's `[0]` stores `undefined` as the token; the model stores `''`.
- `Dialog.RangeSelectorDialog.HandleRangeInput`: requires a valid row index. The inputs pass their own index (537-545), and the JavaScript behaviour of an assignment past the end (a sparse array) is not modelled.
- `Dialog.RangeSelectorDialog.HandleRangeAdd`: requires `!isOnlyOneRange`, because the add button is rendered only then (552-559). The handler's in-place `v.push('')` on the previous state array (an aliasing effect) is modelled as a new sequence.
- `Dialog.RangeSelectorDialog.constructor`: in one-range mode the seeded rows are `unitRangesToText` of the first range. They are one row only when that helper returns one text per range, which is not shown. So `Capped()` is not claimed at mount; every handler keeps it, and a grid selection establishes it.
- A change of the `isOnlyOneRange` or `isSupportAcrossSheet` prop while the dialog is open: the open dialog keeps the flags it was mounted with, whereas React would re-render it with the new props.
- The default prop values `isFocus = true`, `isOnlyOneRange = false` and `isSupportAcrossSheet = false` (97-99) are not modelled: the selector's constructor takes every one of them explicitly.
- Strings are sequences of Unicode scalar values. JavaScript's `length` counts UTF-16 code units, so the caret offset `HandleConfirm` sets (`|text|`, for 322) differs from the source's whenever the text holds a character outside the Basic Multilingual Plane. Lone surrogates, which JavaScript strings can hold, cannot be represented.
- The render service's optional presence (`refSelectionsRenderService?.`): the model assumes it is present.
