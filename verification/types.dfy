/**
 The data model shared by the math-delimiter normalisation pipeline: regions of
 the document, detected delimiters, validation diagnostics and planned edits.
 All offsets are UTF-16 code-unit offsets into the document, held as unbounded
 integers (JavaScript numbers in the plugin).
 */
module Types {

  datatype Option<+T> = None | Some(value: T)

  /** The kinds a region may carry; the safe-region computation only produces Text. */
  datatype RegionType = Text | CodeBlock | InlineCode | Frontmatter | Html | Comment

  /** A half-open interval [from, to) of the document. */
  datatype TextRegion = TextRegion(kind: RegionType, from: int, to: int)

  /** The [from, to) extent of a protected syntax node, as reported by the parser. */
  datatype Span = Span(from: int, to: int)

  datatype DelimiterType = Inline | Display

  /** A matched `\( … \)` or `\[ … \]` pair and the content between the tokens. */
  datatype MathDelimiter = MathDelimiter(
    kind: DelimiterType,
    from: int,
    to: int,
    openDelim: string,
    closeDelim: string,
    content: string,
    contentFrom: int,
    contentTo: int)

  /** The diagnostics the validator produces (the reserved, never produced kind is omitted). */
  datatype ErrorKind = UnbalancedBraces | UnbalancedBrackets | UnbalancedParentheses | EmptyContent

  /** A diagnostic; `position` is relative to the math content, not the document. */
  datatype ValidationError = ValidationError(kind: ErrorKind, message: string, position: Option<nat>)

  datatype ValidationResult = ValidationResult(isValid: bool, errors: seq<ValidationError>)

  /** One contiguous replacement over the untouched document's coordinates. */
  datatype NormalizationEdit = NormalizationEdit(
    from: int,
    to: int,
    insert: string,
    original: string,
    delimiterType: DelimiterType)

  datatype Stats = Stats(totalFound: nat, converted: nat, skipped: nat)

  datatype NormalizationResult = NormalizationResult(
    edits: seq<NormalizationEdit>,
    stats: Stats,
    errors: seq<ValidationError>)

  /** Sort key under which an ascending sort orders edits by descending `from`. */
  function DescendingFrom(e: NormalizationEdit): int {
    -e.from
  }
}
