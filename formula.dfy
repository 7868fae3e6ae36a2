/**
 * The formula-engine vocabulary the range selector works with, and the
 * collaborators it imports from files that are not part of this model.
 * The collaborators are function values with no laws attached: nothing is
 * assumed about what the lexer or the range codec computes.
 */
module Formula {
  import opened Wrappers

  /** `sequenceNodeType`: only the REFERENCE kind is inspected by the selector. */
  datatype NodeType = Reference | OtherKind(kind: int)

  /** An element of a lexed sequence: a plain string or a typed node. */
  datatype SequenceNode =
    | Text(text: string)
    | Node(nodeType: NodeType, token: string, startIndex: int, endIndex: int)

  predicate IsReferenceNode(node: SequenceNode)
  {
    node.Node? && node.nodeType == Reference
  }

  /** `IRange`: the rectangle of a reference. */
  datatype Range = Range(startRow: int, startColumn: int, endRow: int, endColumn: int)

  /** `IUnitRangeName`: a range qualified by workbook unit and sheet name. */
  datatype UnitRange = UnitRange(unitId: string, sheetName: string, range: Range)

  /** The imported helpers, each kept uninterpreted. */
  datatype Helpers = Helpers(
    sequenceNodesBuilder: string -> Option<seq<SequenceNode>>,
    deserializeRangeWithSheet: string -> UnitRange,
    rangePreProcess: Range -> Range,
    unitRangesToText: (seq<UnitRange>, bool) -> seq<string>,
    sequenceNodeToText: seq<SequenceNode> -> string,
    verifyRange: seq<SequenceNode> -> bool)

  /** `texts[0]`, with "" standing for JavaScript's `undefined` on an empty list. */
  function First(texts: seq<string>): string
  {
    if texts == [] then "" else texts[0]
  }
}
