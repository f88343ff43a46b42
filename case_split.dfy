/** `Operation.caseSplit`: the edit made from the server's destructure result.
    The server numbers lines from 1, the editor from 0; columns agree. */
module CaseSplit {
  import opened Strings
  import CaseSplitFormat

  datatype ServerPosition = ServerPosition(line: int, col: int)
  datatype ServerRange = ServerRange(start: ServerPosition, end: ServerPosition)
  /** The server's reply to `caseAnalysis`: the span to replace and its new text. */
  datatype Destruct = Destruct(range: ServerRange, content: string)

  datatype EditorPosition = EditorPosition(line: int, character: int)
  datatype EditorRange = EditorRange(start: EditorPosition, end: EditorPosition)
  /** What `editBuilder.replace` receives. */
  datatype Edit = Edit(range: EditorRange, text: string)

  /** The inverse numbering: an editor position as the server counts it. */
  function FromEditorPosition(q: EditorPosition): ServerPosition {
    ServerPosition(q.line + 1, q.character)
  }

  function FromEditorRange(e: EditorRange): ServerRange {
    ServerRange(FromEditorPosition(e.start), FromEditorPosition(e.end))
  }

  /** `new vscode.Position(p.line - 1, p.col)`. */
  function ToEditorPosition(p: ServerPosition): (q: EditorPosition)
    ensures FromEditorPosition(q) == p
  {
    EditorPosition(p.line - 1, p.col)
  }

  /** Converting back and forth in the other order is the identity too. */
  lemma ToEditorPositionOnto(q: EditorPosition)
    ensures ToEditorPosition(FromEditorPosition(q)) == q
  {
  }

  predicate ServerBefore(p: ServerPosition, q: ServerPosition) {
    p.line < q.line || (p.line == q.line && p.col <= q.col)
  }

  predicate EditorBefore(p: EditorPosition, q: EditorPosition) {
    p.line < q.line || (p.line == q.line && p.character <= q.character)
  }

  /** The conversion keeps the order of positions, so a well-formed range
      stays well-formed. */
  lemma ToEditorPositionMonotone(p: ServerPosition, q: ServerPosition)
    ensures ServerBefore(p, q) <==> EditorBefore(ToEditorPosition(p), ToEditorPosition(q))
  {
  }

  /** `new vscode.Range(start, end)`: the range's start is whichever of the
      two positions comes first. */
  function EditorRangeOf(p: EditorPosition, q: EditorPosition): (e: EditorRange)
    ensures EditorBefore(e.start, e.end)
    ensures {e.start, e.end} == {p, q}
    ensures EditorBefore(p, q) ==> e == EditorRange(p, q)
  {
    if EditorBefore(p, q) then EditorRange(p, q) else EditorRange(q, p)
  }

  /** The range built from the server's two ends: well-formed, and the
      server's range exactly when that one is well-formed, the server's range
      with its ends exchanged otherwise. */
  function ToEditorRange(r: ServerRange): (e: EditorRange)
    ensures EditorBefore(e.start, e.end)
    ensures ServerBefore(r.start, r.end) ==> FromEditorRange(e) == r
    ensures !ServerBefore(r.start, r.end) ==> FromEditorRange(e) == ServerRange(r.end, r.start)
  {
    ToEditorPositionMonotone(r.start, r.end);
    EditorRangeOf(ToEditorPosition(r.start), ToEditorPosition(r.end))
  }

  /** A reversed server range, (3,0) to (2,5), reaches the editor as the
      range from (1,5) to (2,0). */
  lemma ToEditorRangeReversedExample()
    ensures ToEditorRange(ServerRange(ServerPosition(3, 0), ServerPosition(2, 5)))
         == EditorRange(EditorPosition(1, 5), EditorPosition(2, 0))
  {
  }

  /** The body of the `editor.edit` callback: the converted range and the
      formatted content, where `line` is the text of the selection's line. */
  function CaseSplitEdit(line: string, d: Destruct): (e: Edit)
    ensures EditorBefore(e.range.start, e.range.end)
    ensures ServerBefore(d.range.start, d.range.end) ==> FromEditorRange(e.range) == d.range
    ensures !ServerBefore(d.range.start, d.range.end)
        ==> FromEditorRange(e.range) == ServerRange(d.range.end, d.range.start)
    ensures !Contains(e.text, CaseSplitFormat.Placeholder)
  {
    Edit(ToEditorRange(d.range), CaseSplitFormat.Format(line, d.content))
  }
}
