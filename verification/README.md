# Dollar Smith normalization core in Dafny

This project models the core of Dollar Smith, a note-editor plugin that rewrites
LaTeX math delimiters into markdown dollar math. An inline `\(…\)` becomes
`$…$` and a display `\[…\]` becomes `$$…$$`. Delimiters are only looked for
in the text outside code, HTML, front matter and link targets. One exception:
a closer whose backslash is the last character of a safe region is still
accepted, so its `)` or `]`, the first character of the following protected
span, is rewritten along with the rest of the delimiter.

The pipeline has five parts:

1. **Safe regions** (`TreeWalker`). The spans of protected syntax nodes are
   sorted by start offset. They are then inverted into the ascending list of
   text regions that no protected span covers.
2. **Detection** (`DelimiterDetector`). Each region is scanned left to right for
   unescaped `\(` / `\[` openers. Each opener is paired with the first
   unescaped matching closer. A backslash pair `\\` is treated as one unit.
3. **Validation** (`Validator`). The content of each delimiter is checked for:
   - balanced braces, brackets and parentheses, skipping the character after
     every backslash;
   - content that is empty after trimming.

   Only unbalanced braces or brackets make content invalid.
4. **Planning** (`Normalizer`). In strict mode, invalid delimiters are skipped
   and their diagnostics are kept. Every other delimiter becomes an edit. The
   run is counted, and the edits are sorted by descending start offset.
5. **Applying** (`EditorAdapter`). A batch containing any out-of-bounds edit is
   rejected. Otherwise the batch becomes one change list, ordered by
   descending start offset.

Support modules:
- `Types` holds the records.
- `Text` holds backslash-run parity and JavaScript's `trim`.
- `Sorting` holds a stable insertion sort. It stands for `Array.prototype.sort`,
  which is stable since ES2019.

Offsets are JavaScript string indices, that is, UTF-16 code-unit positions.
Each code unit is one `char`; see "## Left out" for surrogates.

Escapes are reasoned about through one reference notion: the parity of the
backslash run just before an offset, `Text.SlashRunBefore`. The scanners step
over backslash pairs. The reference definitions instead say "an even run of
backslashes precedes this offset". The lemmas connect the two.

## Model

| member | source | states |
|---|---|---|
| TreeWalker.ProtectedSpans | src/tree-walker.ts:28-35 | a protected node contributes its own span and nothing from its children |
| TreeWalker.ProtectedSpansOutermost | src/tree-walker.ts:6-35 | the traversal collects a span exactly when it belongs to a node whose name is one of the nine protected names and that has no protected ancestor |
| TreeWalker.GetSafeRegions | src/tree-walker.ts:37-64 | every emitted region is a text region with 0 <= from < to |
| TreeWalker.IsPositionSafe | src/tree-walker.ts:72-81 | the scan answers true exactly when some region holds the position, with an inclusive start and an exclusive end |
| TreeWalker.NoProtectedSpansWholeDocument | src/tree-walker.ts:56-62 | without protected spans, a non-empty document is one region [0, length) |
| TreeWalker.SafeRegionsAscending | src/tree-walker.ts:37-64 | for spans inside the document, the regions are non-empty, pairwise disjoint, strictly ascending and inside [0, length) |
| TreeWalker.SafeRegionsAreComplement | src/tree-walker.ts:40-64 | for spans inside the document, a position is safe exactly when it lies in [0, length) and in no protected span |
| TreeWalker.SafeRegionsAvoidProtected | src/tree-walker.ts:45-54 | no safe region shares an offset with a protected span |
| TreeWalker.SafeRegionsOrderIndependent | src/tree-walker.ts:38 | the stable sort makes the regions depend only on the multiset of spans, not on the order the traversal reports them in |
| DelimiterDetector.IndexOfBackslash | src/delimiter-detector.ts:24 | `indexOf('\\', from)`: the result is a backslash at or after `from`, and no backslash lies between `from` and it; None means there is no backslash from `from` on |
| DelimiterDetector.FindCloser | src/delimiter-detector.ts:86-106 | the result is the first unescaped `\c` whose backslash lies before the limit; None means no unescaped closer exists there |
| DelimiterDetector.Step | src/delimiter-detector.ts:23-83 | one loop iteration stops exactly when no backslash is left before the region end; otherwise it moves forward; an emitted delimiter is well-formed, closes at its first unescaped closer, and the scan resumes right after it |
| DelimiterDetector.StepAt | src/delimiter-detector.ts:30-82 | at a backslash: before a second backslash it steps two on; before `(` or `[` it emits a delimiter of that kind starting at the backslash and closing at its first unescaped closer before the region end, resuming after the closer, or, when there is no such closer, steps two on; before anything else (or at the end of the text) it steps one on |
| DelimiterDetector.ScanFrom | src/delimiter-detector.ts:19-84 | the region scan yields ordered, well-formed delimiters whose closing backslash lies inside the region |
| DelimiterDetector.ScanRegion | src/delimiter-detector.ts:19-22 | each delimiter starts at or after the region start and its closing backslash lies before the region end, so a delimiter may end one offset past the region |
| DelimiterDetector.Detect | src/delimiter-detector.ts:10-17 | every detected delimiter is well-formed, closes at its first closer, and begins and closes inside one of the given regions |
| DelimiterDetector.ScanOpenersUnescaped | src/delimiter-detector.ts:33-36 | every delimiter starts at an opener preceded by an even run of backslashes, never at the second half of `\\` |
| DelimiterDetector.ScanMissesOnlyUnclosedOpeners | src/delimiter-detector.ts:38-79 | an unescaped opener that ends up in no delimiter has no matching closer before the region end |
| DelimiterDetector.DetectOrdered | src/delimiter-detector.ts:10-17 | over ascending regions the delimiters are pairwise disjoint and in document order |
| DelimiterDetector.OrderedStrictlyIncreasing | src/delimiter-detector.ts:10-17 | ordered, well-formed delimiters start at strictly increasing offsets |
| DelimiterDetector.DetectInlineExample | tests/delimiter-detector.test.ts:7-30 | `Prefix \(x^2\) Suffix` yields one inline delimiter at 7..14 with content `x^2` at 9..12 |
| DelimiterDetector.EscapedOpenerExample | tests/delimiter-detector.test.ts:55-63 | in `Not math \\( text`, the backslash pair opens nothing |
| Validator.CheckFrom | src/validator.ts:64-84 | from a consistent stack, the loop reports balance exactly when the content is well nested; otherwise it reports the first closer that underflows, or else the last opener of the innermost unclosed level |
| Validator.CheckBalance | src/validator.ts:61-87 | balanced exactly when every visited closer has an earlier opener and every opener is closed; a stray closer is reported at depth zero; a reported unclosed opener is never closed later |
| Validator.UnclosedNeverClosed | src/validator.ts:82-84 | after the reported unclosed opener, the depth never returns to the level at which it was opened |
| Validator.Diagnostics | src/validator.ts:12-48 | the reported kinds are braces, brackets, parentheses and then empty, each present exactly when its check fails; each diagnostic carries its message; a balance diagnostic carries the offset `checkBalance` reports for its pair and the empty diagnostic carries none |
| Validator.BalanceErrors | src/validator.ts:12-40 | one pair's check yields its diagnostic exactly when the pair is not well nested, positioned at the offset `checkBalance` reports |
| Validator.OnlyBraceFault | src/validator.ts:12-58 | when only the braces are unbalanced and the content is not blank, the result is invalid with the braces diagnostic alone, at the offset `checkBalance` reports |
| Validator.BraceFaultFirst | src/validator.ts:12-58 | unbalanced braces make the result invalid and come first among the diagnostics |
| Validator.NoFault | src/validator.ts:9-59 | well-nested, non-blank content is valid with no diagnostics |
| Validator.MessageIdentifiesKind | src/validator.ts:15-47 | the four diagnostic messages are pairwise distinct, so a message determines its kind |
| Validator.Validate | src/validator.ts:9-59 | the result is valid exactly when braces and brackets are both well nested, that is, exactly when no diagnostic has a strict kind |
| Validator.UnclosedBraceExample | tests/validator.test.ts:12-18 | `x^{2` is invalid, and its only diagnostic is the unbalanced-braces error at offset 2 |
| Validator.StrayCloseExample | tests/validator.test.ts:20-25 | `x}` is invalid, and its first diagnostic is the unbalanced-braces error at offset 1 |
| Validator.EscapedBracesExample | tests/validator.test.ts:40-45 | `\{ a \}` is valid with no diagnostics, because both braces are escaped |
| Validator.ParenthesisWarningExample | tests/validator.test.ts:33-38 | `(a` stays valid, with the parenthesis warning as its only diagnostic |
| Text.TrimStart | src/validator.ts:43 | the result is a suffix of the input that does not start with whitespace, and what was dropped is all whitespace |
| Text.TrimEnd | src/validator.ts:43 | the result is a prefix of the input that does not end with whitespace, and what was dropped is all whitespace |
| Text.Trim | src/validator.ts:43 | the result is a contiguous part of the input with neither end whitespace, and the dropped prefix and suffix are all whitespace |
| Text.TrimEmptyIffBlank | src/validator.ts:43 | the trimmed content is empty exactly when every character is JavaScript whitespace |
| Normalizer.Slice | src/normalizer.ts:69 | JavaScript's `slice`: in-range bounds give the substring, a negative start counts from the end, crossed bounds give the empty string |
| Normalizer.SliceFromEndExample | src/normalizer.ts:69 | `"abcdef".slice(-2, 6)` is `ef` |
| Normalizer.ConvertDelimiter | src/normalizer.ts:68-85 | the edit keeps the delimiter's range and kind |
| Normalizer.ConvertSwapsTokens | src/normalizer.ts:68-85 | for a detected delimiter, the replaced text is opener + content + closer, the insert is marker + content + marker, and an inline edit shrinks the text by two |
| Normalizer.Collect | src/normalizer.ts:38-56 | the loop's edits, skip count and kept diagnostics equal the reference gate applied in detection order; converted + skipped = found and converted = number of edits |
| Normalizer.Plan | src/normalizer.ts:30-64 | the counts add up; the edits are a permutation of the converted edits, stably sorted by descending start; outside strict mode nothing is skipped and no diagnostics are kept |
| Normalizer.NonStrictConvertsAll | src/normalizer.ts:43-49 | outside strict mode, the k-th delimiter becomes the k-th edit, before sorting |
| Normalizer.StrictConvertsExactlyValid | src/normalizer.ts:43-55 | in strict mode, a delimiter yields an edit exactly when its content is valid |
| Normalizer.ConvertedAscending | src/normalizer.ts:51-55 | disjoint delimiters in document order give disjoint edits with strictly ascending starts |
| Normalizer.SortedEditsDescending | src/normalizer.ts:59 | on such edits the descending sort is a reversal, and leaves them disjoint and strictly descending |
| Normalizer.PlannedEditFaithful | src/normalizer.ts:51-55 | every planned edit replaces exactly a delimiter's text, with the content between the tokens wrapped in dollar markers; in strict mode that content is valid |
| Normalizer.Normalize | src/normalizer.ts:25-65 | for the whole pipeline: the counts; the edits are the converted edits of the detected delimiters, stably sorted by descending start; the kept diagnostics are those of the skipped delimiters, concatenated in detection order; each edit's faithful replacement; strict-mode validity; for spans inside the document, strictly descending disjoint edits that reach the editor in planned order; the adapter accepts the batch |
| Normalizer.InlineDocDetected | tests/normalizer.test.ts:6-9 | without protected spans, `This is \(inline\) math.` holds one inline delimiter, at 8..18 with content `inline` |
| Normalizer.NormalizeInlineExample | tests/normalizer.test.ts:5-19 | non-strict `normalize` of `This is \(inline\) math.` yields one edit, replacing `\(inline\)` at 8..18 by `$inline$`, and one conversion |
| EditorAdapter.ValidateEdits | src/editor-adapter.ts:57-65 | true exactly when every edit satisfies 0 <= from <= to <= length |
| EditorAdapter.BuildTransaction | src/editor-adapter.ts:40-55 | the changes are a permutation of the edits' ranges and inserts, ordered by non-increasing start |
| EditorAdapter.ToChange | src/editor-adapter.ts:45-49 | the change carries the edit's from, to and insert, and nothing else |
| EditorAdapter.TransactionKeepsDescendingOrder | src/editor-adapter.ts:42 | edits already in descending order are dispatched in their own order |
| EditorAdapter.ApplyEdits | src/editor-adapter.ts:13-24 | success exactly when every edit is in bounds; a non-empty accepted batch dispatches exactly the built transaction, and nothing else is dispatched |
| EditorAdapter.EmptyBatchAccepted | src/editor-adapter.ts:14 | an empty batch is accepted and nothing is dispatched |
| EditorAdapter.OneBadEditRejectsBatch | src/editor-adapter.ts:16-19 | a single out-of-bounds edit rejects the batch and nothing is dispatched |
| Sorting.SortBy | src/tree-walker.ts:38 | the sort returns a permutation of its input, ordered by the key |
| Sorting.SortStable | src/tree-walker.ts:38 | for every key value, the elements with that key appear in the sorted result in their original order |
| Sorting.SortStrictlyDecreasingIsReverse | src/normalizer.ts:59 | sorting a sequence whose keys strictly decrease reverses it |
| Sorting.MapSortCommute | src/editor-adapter.ts:42-49 | mapping edits to changes commutes with the stable sort when the key is preserved |
| Sorting.SortSortedIsIdentity | src/editor-adapter.ts:42 | a stable sort leaves an already sorted sequence unchanged |

## Left out

- The parser that builds the syntax tree (src/tree-walker.ts:26) is a library call. The tree is an input to `ProtectedSpans`, and `Normalize` takes the spans it yields.
- src/main.ts and src/settings.ts are not part of this model. They are plugin registration, commands and settings UI.
- `view.dispatch` and the transaction annotations (src/editor-adapter.ts:22, 50-53) are calls into the editor. `ApplyOutcome.dispatched` holds the change list that would be dispatched.
- `getState`, `getText` and `getEditorView` are left out. They only read editor state.
- `console.error` (src/editor-adapter.ts:17) is left out.
- The validator's suspicious-pattern error kind is left out because no code path produces it.
- Normalizer.Plan takes the content validator as a parameter, and Normalizer.Collect takes both the validator and the converter. `Normalize` passes `Validator.Validate` and `convertDelimiter` against the document text. Their contracts therefore hold for any validator.
- Normalizer.Normalize states ordering and disjointness of the edits only for spans inside the document (0 <= from <= to <= length), as the parser produces them.
- Normalizer.Normalize does not claim that the converted text contains no further delimiters. Content such as `\( a \( b \)` keeps an inner opener.
- A Dafny `char` is a Unicode scalar value, so a lone UTF-16 surrogate cannot be written as one. A document with characters outside the Basic Multilingual Plane (an emoji, a mathematical italic letter) is modelled by replacing each surrogate code unit with a stand-in that is neither a backslash, a bracket, a brace nor whitespace, such as U+FFFD. That keeps every offset and every decision of the pipeline. It does not keep the exact text of `content`, `original` and `insert`, which hold the stand-ins.
- `trim` uses the JavaScript whitespace set listed in `Text.IsJsWhitespace`.
- A delimiter may end one offset past its safe region (see `DelimiterDetector.ScanRegion`), so an edit may rewrite the first character of a protected span, as the plugin does.
