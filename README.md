# Case-split formatting and identifier lookup of a ReasonML editor client

This project models the text layer of the editor client of a ReasonML
language integration (`src/client.ts`):

- the **case-split formatter** `Operation.caseSplit.format`, which turns the
  replacement text the language server proposes for a destructured
  expression into the text inserted in the document: drop one final line
  feed, drop a leading `(` and a final `\n)`, indent a `switch` expression by
  the leading whitespace of the selection's line, and replace every `(??)`
  stub with `failwith "<case>"`;
- the **range conversion** of `Operation.caseSplit`: the server's 1-based
  line numbers become the editor's 0-based ones, columns unchanged;
- the **`getText` handler**, which returns the dotted identifier (optionally
  ending in a bare dot) that ends at the cursor, found by a fixed regular
  expression anchored at the end of the line's text before the cursor.

Every regular expression is written out by hand: `Strings.ReplaceAll` is
JavaScript's global replace of a literal pattern (left to right,
non-overlapping), `Strings.ReplaceAtEnd` is a replace anchored with `$`
(without the `m` flag, so at the very end only), `ScanOuterParens` runs the
alternation `^\(|\n\)$` index by index, `StartsWithSwitchWord` is
`^\bswitch\b`, and the identifier pattern is an automaton
(`IdentifierSuffix.Accepts`) with a leftmost-match scan
(`IdentifierSuffix.MatchStart`). Independent reference definitions are
proved equal to the regex models: a one-pass `IndentedSwitch` for the two
chained replacements of `indentSwitchExpression`, the decomposition
"`(` + result + `\n)`" for `removeOuterParens`, and a character-by-character
`HasDottedIdentShape` for the identifier pattern.

Files: `strings.dfy` (module `Strings`), `case_split_format.dfy`
(`CaseSplitFormat`), `case_split.dfy` (`CaseSplit`), `identifier_suffix.dfy`
(`IdentifierSuffix`).

Two points where the code does less or more than its names suggest; the model follows the code:

- `indentSwitchExpression` rewrites **every** `|` (`/\|/g`), not only a `|`
  that begins a line, and only a `}` that is the last character of the text.
- Stripping outer parentheses is not idempotent (`RemoveOuterParensTwice`:
  `((x` becomes `(x`, then `x`), so the formatter's second step is not a
  no-op on its own output.

## Model

| member | source | states |
|---|---|---|
| Strings.ReplaceAllAbsent | src/client.ts:33 | a global literal replace leaves a string without the pattern unchanged |
| Strings.ReplaceAllFirstOccurrence | src/client.ts:33 | at the first occurrence of the pattern, the result is the text before it, then the replacement, then the rewrite of the text after it; with `ReplaceAllAbsent` this fixes the result completely |
| Strings.ReplaceAllRemovesPattern | src/client.ts:33 | when the replacement can neither start nor complete the pattern, no occurrence of the pattern is left |
| Strings.ReplaceAllIdempotent | src/client.ts:33 | under the same condition, replacing twice equals replacing once |
| CaseSplitFormat.Indentation | src/client.ts:21-23 | the indentation is a prefix of the selection's line, is all whitespace (JavaScript `\s`), and the next character of the line, if any, is not whitespace |
| CaseSplitFormat.TrimTrailingWhitespace | src/client.ts:45-47 | exactly one final `\n` is removed when present; otherwise the text is unchanged; earlier characters are never touched |
| CaseSplitFormat.ScanOuterParensTail | src/client.ts:43 | past a leading `(`, the regex scan keeps every character up to a final `\n)` and drops that `\n)` |
| CaseSplitFormat.RemoveOuterParens | src/client.ts:42-44 | the input is `(`-if-it-starts-with-one, then the result, then `\n)`-if-it-ends-with-one: both steps are independent, happen at most once, and change nothing else |
| CaseSplitFormat.RemoveOuterParensTwice | src/client.ts:42-44 | a second pass can remove a second leading `(`, so the step is not idempotent |
| CaseSplitFormat.TwoReplacementsAreIndentedSwitch | src/client.ts:38-40 | the two chained replacements (every pipe character, then a final `}`) equal the one-pass rewrite `IndentedSwitch` |
| CaseSplitFormat.IndentSwitchExpression | src/client.ts:35-41 | without a leading word `switch` the content is returned unchanged; with it, every pipe character becomes indentation, two spaces and a pipe, a final `}` becomes indentation + `}`, all else is copied in order |
| CaseSplitFormat.IndentedSwitchInsertsOnlyWhitespace | src/client.ts:38-40 | with whitespace indentation, the rewrite only inserts whitespace: the non-whitespace characters are exactly those of the input, in order |
| CaseSplitFormat.IndentedSwitchLength | src/client.ts:38-40 | the output is longer by (indentation + 2) per pipe character plus the indentation once if the text ends in `}` |
| CaseSplitFormat.IndentedSwitchAppend | src/client.ts:39 | the rewrite of a concatenation is the concatenation of the rewrites when the first part does not end in `}` |
| CaseSplitFormat.IndentedSwitchPlain | src/client.ts:38-40 | text without a pipe character and without a final `}` is unchanged by the rewrite |
| CaseSplitFormat.SwitchWordExamples | src/client.ts:36 | `switcher` does not start with the word `switch`; `switch (x)` and `switch` do |
| CaseSplitFormat.FillPlaceholders | src/client.ts:32-34 | no `(??)` remains in the result, and the result equals the input exactly when the input holds no `(??)` |
| CaseSplitFormat.FillPlaceholdersFirstStub | src/client.ts:32-34 | the first `(??)` becomes `failwith "<case>"`, the text before it is kept and the filling goes on after it |
| CaseSplitFormat.FillPlaceholdersExample | src/client.ts:32-34 | `switch (x) { pipe character A => (??) }` becomes `switch (x) { pipe character A => failwith "<case>" }` |
| CaseSplitFormat.FillPlaceholdersIdempotent | src/client.ts:32-34 | filling the stubs twice equals filling them once |
| CaseSplitFormat.Format | src/client.ts:20-30 | the formatted text holds no `(??)` stub (the steps run in the source's order, the indentation needs no `$` because it is whitespace) |
| CaseSplitFormat.FormatNormalizedIsIdentity | src/client.ts:20-30 | text without a final `\n`, outer parentheses, leading `switch` or `(??)` is returned unchanged |
| CaseSplitFormat.FormatIgnoresLineUnlessSwitch | src/client.ts:21-29 | unless the trimmed content starts with `switch`, the selection's line does not affect the result |
| CaseSplitFormat.FormatExample | src/client.ts:20-30 | with no indentation, `(\nfoo\n)\n` formats to `\nfoo` |
| CaseSplit.ToEditorPosition | src/client.ts:11-14 | the editor position is the server position with the line lowered by one and the column kept: numbering back up by one restores it |
| CaseSplit.EditorRangeOf | src/client.ts:11 | the range built from two positions has the same two ends, ordered so that its start comes first; already ordered ends are kept as given |
| CaseSplit.ToEditorRange | src/client.ts:11-14 | both ends are converted that way; the editor range is well-formed, and it is the server range when that is well-formed and the server range with its ends exchanged otherwise |
| CaseSplit.ToEditorRangeReversedExample | src/client.ts:11-14 | the reversed server range (3,0) to (2,5) reaches the editor as (1,5) to (2,0) |
| CaseSplit.ToEditorPositionOnto | src/client.ts:12-13 | every editor position is the conversion of exactly the server position one line further down |
| CaseSplit.ToEditorPositionMonotone | src/client.ts:11-14 | the conversion keeps the order of positions both ways, so a well-formed range stays well-formed |
| CaseSplit.CaseSplitEdit | src/client.ts:8-17 | the edit replaces a well-formed range: the converted server range, with its ends exchanged when the server's were reversed; its text holds no `(??)` stub |
| IdentifierSuffix.InIdentIsTailShape | src/client.ts:76 | after the first identifier character, the automaton accepts exactly the texts of identifier characters and dots in which each inner dot is followed by an identifier start |
| IdentifierSuffix.DottedIdentShape | src/client.ts:76 | the automaton for the pattern accepts exactly the texts of `HasDottedIdentShape` |
| IdentifierSuffix.MatchStart | src/client.ts:76-77 | the scan returns the first index whose suffix matches the whole pattern, or none when no suffix from that index on matches |
| IdentifierSuffix.GetText | src/client.ts:76-78 | the reply is the longest suffix of the text before the cursor that matches the pattern; it fails (`match[0]` of null) exactly when no suffix matches; the `undefined` branch is never taken |
| IdentifierSuffix.CursorPrefix | src/client.ts:72-74 | the text read is the line's prefix up to the cursor column, clipped to the line |
| IdentifierSuffix.HandleGetText | src/client.ts:71-79 | the reply is never `undefined`; a returned text matches the pattern and ends at the cursor |
| IdentifierSuffix.GetTextStopsAtNonIdentStart | src/client.ts:76-78 | the character before the returned text, if any, is not in `[A-Za-z_]` |
| IdentifierSuffix.GetTextIdempotent | src/client.ts:76-78 | asking about the returned text returns it whole |
| IdentifierSuffix.GetTextWholeExample | src/client.ts:76-78 | `Module.Sub.f` yields the whole text |
| IdentifierSuffix.GetTextSuffixExample | src/client.ts:76-78 | `1 + foo` yields `foo` |
| IdentifierSuffix.GetTextNoMatchExample | src/client.ts:76-78 | two spaces yield no match, so the handler fails |

## Left out

- CaseSplitFormat.IndentSwitchExpression: requires an indentation without `$`, because JavaScript's `$&`, `` $` ``, `$'` and `$$` replacement patterns are not modelled; the only caller passes whitespace, which `Format` proves has no `$`.
- `launch` (process spawning, the language-client constructor, IPC transport, debug flags, document selector): library and process glue with no logic of its own.
- The `caseSplit` command: reading the active editor, the `expand_region` call for an empty selection, `sendRequest` of `caseAnalysis` and the silent `catch`: editor and host-API plumbing with asynchronous requests; the formatted edit they lead to is `CaseSplit.CaseSplitEdit`.
- `editor.edit`, `editBuilder.replace`, `workspace.openTextDocument` and `lineAt`: foreign editor calls; the model takes the line text as a parameter and returns the range and text passed to `editBuilder.replace`; how the editor applies that edit is not modelled.
- The editor's own checks of positions (a line that becomes negative after the conversion, a line number past the document): these belong to the editor's position type, not to this code.
- Full JavaScript regular-expression semantics: only the fixed patterns of the source are modelled; `\s` is the fixed ECMAScript whitespace set; strings are sequences of Unicode scalar values rather than UTF-16 code units; every character the patterns name is in the Basic Multilingual Plane, so the patterns themselves match alike, but columns differ (see `IdentifierSuffix.CursorPrefix`).
- IdentifierSuffix.CursorPrefix: the cursor column counts UTF-16 code units in the source and characters here, so on a line holding a character outside the Basic Multilingual Plane the text read differs: on `😀foo bar` at column 5 the handler reads `😀foo` and replies `foo`, while the model reads `😀foo ` and fails.
- Races between overlapping case-split invocations: concurrency with the host, outside the code's logic.
