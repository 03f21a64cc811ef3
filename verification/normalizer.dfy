/**
 Edit planning: validate each detected delimiter, skip the invalid ones in
 strict mode, turn the rest into replacements by `$…$` or `$$…$$`, count what
 happened, and order the edits by descending start offset so that applying
 them one after another never shifts an offset still to be used.
 */
module Normalizer {
  import opened Types
  import Sorting
  import TreeWalker
  import DelimiterDetector
  import Validator
  import EditorAdapter

  /**
   The offset a `String.prototype.slice` bound denotes in a string of length
   `n`: a negative bound counts back from the end, and the result is clamped
   to [0, n].
   */
  function SliceBound(b: int, n: nat): (i: nat)
    ensures i <= n
    ensures 0 <= b <= n ==> i == b
    ensures b < 0 <= n + b ==> i == n + b
  {
    if b < 0 then (if n + b < 0 then 0 else n + b) else if b > n then n else b
  }

  /** JavaScript's `text.slice(from, to)`; a crossed range is empty. */
  function Slice(text: string, from: int, to: int): (r: string)
    ensures 0 <= from <= to <= |text| ==> r == text[from..to]
    ensures from < 0 <= |text| + from <= to <= |text| ==> r == text[|text| + from..to]
    ensures SliceBound(to, |text|) <= SliceBound(from, |text|) ==> r == []
    ensures |r| <= |text|
  {
    var lo := SliceBound(from, |text|);
    var hi := SliceBound(to, |text|);
    if lo < hi then text[lo..hi] else []
  }

  /** `"abcdef".slice(-2, 6)` is `"ef"`: a negative start counts from the end. */
  lemma SliceFromEndExample()
    ensures Slice("abcdef", -2, 6) == "ef"
  {
  }

  /** The markdown math marker replacing both tokens of a delimiter. */
  function Dollars(kind: DelimiterType): string {
    if kind.Inline? then "$" else "$$"
  }

  /** `convertDelimiter`: the edit that swaps a delimiter's tokens for dollar signs. */
  function ConvertDelimiter(d: MathDelimiter, text: string): (e: NormalizationEdit)
    ensures e.from == d.from && e.to == d.to && e.delimiterType == d.kind
  {
    NormalizationEdit(d.from, d.to, Dollars(d.kind) + d.content + Dollars(d.kind), Slice(text, d.from, d.to), d.kind)
  }

  /**
   For a detected delimiter the edit replaces exactly the delimiter's text,
   and that text and the replacement agree on everything but the two tokens.
   */
  lemma ConvertSwapsTokens(d: MathDelimiter, text: string)
    requires DelimiterDetector.WellFormed(text, d)
    ensures ConvertDelimiter(d, text).original == text[d.from..d.to]
    ensures ConvertDelimiter(d, text).original == DelimiterDetector.OpenToken(d.kind) + d.content + DelimiterDetector.CloseToken(d.kind)
    ensures ConvertDelimiter(d, text).insert == Dollars(d.kind) + d.content + Dollars(d.kind)
    ensures |ConvertDelimiter(d, text).insert| == |ConvertDelimiter(d, text).original| - (if d.kind.Inline? then 2 else 0)
  {
    var original := text[d.from..d.to];
    assert original == text[d.from..d.contentFrom] + text[d.contentFrom..d.contentTo] + text[d.contentTo..d.to];
  }

  // ---------------------------------------------------------------------------
  // Reference definitions of the loop's outcome, in detection order

  /**
   The strict-mode gate: outside strict mode every delimiter is converted.
   The planning functions take the content validator as a parameter;
   `Normalize` supplies `Validator.Validate`.
   */
  predicate ShouldConvert(d: MathDelimiter, strict: bool, validate: string -> ValidationResult) {
    !strict || validate(d.content).isValid
  }

  /** `convertDelimiter` against the document text, as a function of the delimiter. */
  function Converter(text: string): MathDelimiter -> NormalizationEdit {
    d => ConvertDelimiter(d, text)
  }

  /** What `convert` makes of the first `n` delimiters that pass the gate, in detection order. */
  function ConvertedBy(convert: MathDelimiter -> NormalizationEdit, ds: seq<MathDelimiter>, strict: bool,
                       validate: string -> ValidationResult, n: nat): (es: seq<NormalizationEdit>)
    requires n <= |ds|
    ensures |es| <= n
  {
    if n == 0 then []
    else
      ConvertedBy(convert, ds, strict, validate, n - 1)
      + (if ShouldConvert(ds[n - 1], strict, validate) then [convert(ds[n - 1])] else [])
  }

  /** The edits of the first `n` delimiters that pass the gate, in detection order. */
  function Converted(text: string, ds: seq<MathDelimiter>, strict: bool, validate: string -> ValidationResult, n: nat): (es: seq<NormalizationEdit>)
    requires n <= |ds|
    ensures |es| <= n
  {
    ConvertedBy(Converter(text), ds, strict, validate, n)
  }

  /** The number of the first `n` delimiters the gate rejects. */
  function SkippedCount(ds: seq<MathDelimiter>, strict: bool, validate: string -> ValidationResult, n: nat): (k: nat)
    requires n <= |ds|
    ensures k <= n
    ensures !strict ==> k == 0
  {
    if n == 0 then 0
    else SkippedCount(ds, strict, validate, n - 1) + (if ShouldConvert(ds[n - 1], strict, validate) then 0 else 1)
  }

  /** The diagnostics of the rejected among the first `n` delimiters, concatenated in detection order. */
  function SkippedErrors(ds: seq<MathDelimiter>, strict: bool, validate: string -> ValidationResult, n: nat): (errs: seq<ValidationError>)
    requires n <= |ds|
    ensures !strict ==> errs == []
  {
    if n == 0 then []
    else
      SkippedErrors(ds, strict, validate, n - 1)
      + (if ShouldConvert(ds[n - 1], strict, validate) then [] else validate(ds[n - 1].content).errors)
  }

  /** Every edit comes from some delimiter that passed the gate. */
  lemma {:induction false} ConvertedFrom(convert: MathDelimiter -> NormalizationEdit, ds: seq<MathDelimiter>, strict: bool,
                                         validate: string -> ValidationResult, n: nat, e: NormalizationEdit)
    requires n <= |ds| && e in ConvertedBy(convert, ds, strict, validate, n)
    ensures exists k :: 0 <= k < n && ShouldConvert(ds[k], strict, validate) && e == convert(ds[k])
  {
    if e in ConvertedBy(convert, ds, strict, validate, n - 1) {
      ConvertedFrom(convert, ds, strict, validate, n - 1, e);
    } else {
      assert ShouldConvert(ds[n - 1], strict, validate) && e == convert(ds[n - 1]);
    }
  }

  /** Every delimiter that passes the gate is converted. */
  lemma {:induction false} ConvertedIncludes(convert: MathDelimiter -> NormalizationEdit, ds: seq<MathDelimiter>, strict: bool,
                                             validate: string -> ValidationResult, n: nat, k: nat)
    requires k < n <= |ds| && ShouldConvert(ds[k], strict, validate)
    ensures convert(ds[k]) in ConvertedBy(convert, ds, strict, validate, n)
  {
    if k < n - 1 {
      ConvertedIncludes(convert, ds, strict, validate, n - 1, k);
    }
  }

  /** A converter that keeps each delimiter's range. */
  ghost predicate KeepsRange(convert: MathDelimiter -> NormalizationEdit) {
    forall d :: convert(d).from == d.from && convert(d).to == d.to
  }

  lemma ConverterKeepsRange(text: string)
    ensures KeepsRange(Converter(text))
  {
  }

  /** How the three reference values grow by one delimiter. */
  lemma Advance(convert: MathDelimiter -> NormalizationEdit, ds: seq<MathDelimiter>, strict: bool, validate: string -> ValidationResult, i: nat)
    requires i < |ds|
    ensures ShouldConvert(ds[i], strict, validate) ==>
      && ConvertedBy(convert, ds, strict, validate, i + 1) == ConvertedBy(convert, ds, strict, validate, i) + [convert(ds[i])]
      && SkippedCount(ds, strict, validate, i + 1) == SkippedCount(ds, strict, validate, i)
      && SkippedErrors(ds, strict, validate, i + 1) == SkippedErrors(ds, strict, validate, i)
    ensures !ShouldConvert(ds[i], strict, validate) ==>
      && ConvertedBy(convert, ds, strict, validate, i + 1) == ConvertedBy(convert, ds, strict, validate, i)
      && SkippedCount(ds, strict, validate, i + 1) == SkippedCount(ds, strict, validate, i) + 1
      && SkippedErrors(ds, strict, validate, i + 1) == SkippedErrors(ds, strict, validate, i) + validate(ds[i].content).errors
  {
  }

  // ---------------------------------------------------------------------------
  // normalize

  /**
   The loop of `normalize` over the detected delimiters: each is validated,
   and either converted or (in strict mode, when invalid) skipped with its
   diagnostics kept.
   */
  method Collect(ds: seq<MathDelimiter>, strict: bool, validate: string -> ValidationResult,
                 convert: MathDelimiter -> NormalizationEdit)
    returns (edits: seq<NormalizationEdit>, errors: seq<ValidationError>, converted: nat, skipped: nat)
    ensures edits == ConvertedBy(convert, ds, strict, validate, |ds|)
    ensures errors == SkippedErrors(ds, strict, validate, |ds|)
    ensures skipped == SkippedCount(ds, strict, validate, |ds|)
    ensures converted == |edits| && converted + skipped == |ds|
  {
    edits, errors, converted, skipped := [], [], 0, 0;
    var i := 0;
    while i < |ds|
      invariant 0 <= i <= |ds|
      invariant edits == ConvertedBy(convert, ds, strict, validate, i)
      invariant errors == SkippedErrors(ds, strict, validate, i)
      invariant skipped == SkippedCount(ds, strict, validate, i)
      invariant converted == |edits| && converted + skipped == i
    {
      var d := ds[i];
      Advance(convert, ds, strict, validate, i);
      var validation := validate(d.content);
      var shouldConvert := true;
      if !validation.isValid {
        if strict {
          shouldConvert := false;
          skipped := skipped + 1;
          errors := errors + validation.errors;
        }
      }
      if shouldConvert {
        edits := edits + [convert(d)];
        converted := converted + 1;
      }
      i := i + 1;
    }
  }

  /**
   `normalize` after detection: the loop's edits, statistics and diagnostics,
   with the edits sorted by descending start offset.
   */
  method Plan(text: string, ds: seq<MathDelimiter>, strict: bool, validate: string -> ValidationResult) returns (r: NormalizationResult)
    ensures r.stats.totalFound == |ds|
    ensures r.stats.converted + r.stats.skipped == r.stats.totalFound
    ensures |r.edits| == r.stats.converted
    ensures r.stats.skipped == SkippedCount(ds, strict, validate, |ds|)
    ensures r.edits == Sorting.SortBy(Converted(text, ds, strict, validate, |ds|), DescendingFrom)
    ensures multiset(r.edits) == multiset(Converted(text, ds, strict, validate, |ds|))
    ensures Sorting.SortedBy(r.edits, DescendingFrom)
    ensures r.errors == SkippedErrors(ds, strict, validate, |ds|)
    ensures !strict ==> r.stats.skipped == 0 && r.errors == [] && |r.edits| == |ds|
  {
    var edits, errors, converted, skipped := Collect(ds, strict, validate, Converter(text));
    r := NormalizationResult(Sorting.SortBy(edits, DescendingFrom), Stats(|ds|, converted, skipped), errors);
  }

  /** Outside strict mode every delimiter becomes an edit, in detection order. */
  lemma {:induction false} NonStrictConvertsAll(text: string, ds: seq<MathDelimiter>, validate: string -> ValidationResult, n: nat)
    requires n <= |ds|
    ensures |Converted(text, ds, false, validate, n)| == n
    ensures forall k :: 0 <= k < n ==> Converted(text, ds, false, validate, n)[k] == ConvertDelimiter(ds[k], text)
  {
    if n > 0 {
      NonStrictConvertsAll(text, ds, validate, n - 1);
    }
  }

  predicate IncreasingFrom(ds: seq<MathDelimiter>) {
    forall i, j :: 0 <= i < j < |ds| ==> ds[i].from < ds[j].from
  }

  /** Edits that follow one another without overlapping, in ascending order. */
  predicate EditsAscending(es: seq<NormalizationEdit>) {
    forall i, j :: 0 <= i < j < |es| ==> es[i].to <= es[j].from && es[i].from < es[j].from
  }

  /** Edits in descending order whose ranges do not overlap. */
  predicate EditsDescending(es: seq<NormalizationEdit>) {
    forall i, j :: 0 <= i < j < |es| ==> es[j].to <= es[i].from && es[j].from < es[i].from
  }

  /** Every edit converted from the first `n` delimiters ends before delimiter `n` starts. */
  lemma ConvertedBelow(convert: MathDelimiter -> NormalizationEdit, ds: seq<MathDelimiter>, strict: bool,
                       validate: string -> ValidationResult, n: nat, e: NormalizationEdit)
    requires KeepsRange(convert)
    requires n < |ds| && DelimiterDetector.Ordered(ds) && forall d :: d in ds ==> d.from < d.to
    requires e in ConvertedBy(convert, ds, strict, validate, n)
    ensures e.to <= ds[n].from && e.from < ds[n].from
  {
    ConvertedFrom(convert, ds, strict, validate, n, e);
    var k :| 0 <= k < n && ShouldConvert(ds[k], strict, validate) && e == convert(ds[k]);
    assert ds[k] in ds;
  }

  /** An edit after all of an ascending sequence extends it. */
  lemma AppendAscending(prior: seq<NormalizationEdit>, e: NormalizationEdit)
    requires EditsAscending(prior)
    requires forall x :: x in prior ==> x.to <= e.from && x.from < e.from
    ensures EditsAscending(prior + [e])
  {
    var es := prior + [e];
    forall i, j | 0 <= i < j < |es| ensures es[i].to <= es[j].from && es[i].from < es[j].from {
      assert es[i] == prior[i] && prior[i] in prior;
      if j < |prior| {
        assert es[j] == prior[j];
      }
    }
  }

  /**
   The gate keeps a subsequence, so disjoint ascending delimiters give disjoint
   ascending edits under any converter that keeps each delimiter's range.
   */
  lemma {:induction false} ConvertedAscending(convert: MathDelimiter -> NormalizationEdit, ds: seq<MathDelimiter>, strict: bool,
                                              validate: string -> ValidationResult, n: nat)
    requires KeepsRange(convert)
    requires n <= |ds|
    requires DelimiterDetector.Ordered(ds) && forall d :: d in ds ==> d.from < d.to
    ensures EditsAscending(ConvertedBy(convert, ds, strict, validate, n))
  {
    if n > 0 {
      ConvertedAscending(convert, ds, strict, validate, n - 1);
      var prior := ConvertedBy(convert, ds, strict, validate, n - 1);
      var last := ds[n - 1];
      if ShouldConvert(last, strict, validate) {
        forall x | x in prior ensures x.to <= last.from && x.from < last.from {
          ConvertedBelow(convert, ds, strict, validate, n - 1, x);
        }
        AppendAscending(prior, convert(last));
      }
    }
  }

  /** In strict mode a delimiter yields an edit exactly when its content is valid. */
  lemma StrictConvertsExactlyValid(text: string, ds: seq<MathDelimiter>, validate: string -> ValidationResult)
    requires IncreasingFrom(ds)
    ensures forall k :: 0 <= k < |ds| ==>
      (ConvertDelimiter(ds[k], text) in Converted(text, ds, true, validate, |ds|) <==> validate(ds[k].content).isValid)
  {
    var convert := Converter(text);
    forall k | 0 <= k < |ds| && validate(ds[k].content).isValid
      ensures ConvertDelimiter(ds[k], text) in Converted(text, ds, true, validate, |ds|)
    {
      ConvertedIncludes(convert, ds, true, validate, |ds|, k);
    }
    forall k | 0 <= k < |ds| && ConvertDelimiter(ds[k], text) in Converted(text, ds, true, validate, |ds|)
      ensures validate(ds[k].content).isValid
    {
      ConvertedFrom(convert, ds, true, validate, |ds|, convert(ds[k]));
      var j :| 0 <= j < |ds| && ShouldConvert(ds[j], true, validate) && convert(ds[k]) == convert(ds[j]);
      assert ds[j].from == ds[k].from;
      assert j == k;
    }
  }

  /**
   When the edits are already disjoint and ascending, the descending sort is
   a reversal and leaves them disjoint and strictly descending.
   */
  lemma {:induction false} SortedEditsDescending(es: seq<NormalizationEdit>)
    requires EditsAscending(es)
    ensures Sorting.SortBy(es, DescendingFrom) == Sorting.Reverse(es)
    ensures EditsDescending(Sorting.SortBy(es, DescendingFrom))
  {
    Sorting.SortStrictlyDecreasingIsReverse(es, DescendingFrom);
  }

  /**
   `e` replaces exactly the text of delimiter `d` in `text`, and its insert is
   the content between the two tokens wrapped in the dollar marker.
   */
  predicate EditFaithful(text: string, d: MathDelimiter, e: NormalizationEdit) {
    && 0 <= e.from && e.from + 4 <= e.to <= |text|
    && e.original == text[e.from..e.to]
    && d.content == text[e.from + 2..e.to - 2]
    && e.insert == Dollars(e.delimiterType) + text[e.from + 2..e.to - 2] + Dollars(e.delimiterType)
  }

  /** `convertDelimiter` is faithful on every detected delimiter. */
  lemma ConverterFaithful(text: string)
    ensures forall d :: DelimiterDetector.WellFormed(text, d) ==> EditFaithful(text, d, Converter(text)(d))
  {
    forall d | DelimiterDetector.WellFormed(text, d) ensures EditFaithful(text, d, Converter(text)(d)) {
      ConvertSwapsTokens(d, text);
    }
  }

  /**
   Under a faithful converter a planned edit replaces a detected delimiter's
   text, and in strict mode the content it keeps is valid.
   */
  lemma PlannedEditFaithful(convert: MathDelimiter -> NormalizationEdit, text: string, ds: seq<MathDelimiter>, strict: bool,
                            validate: string -> ValidationResult, e: NormalizationEdit)
    requires forall d :: d in ds ==> EditFaithful(text, d, convert(d))
    requires e in ConvertedBy(convert, ds, strict, validate, |ds|)
    ensures 0 <= e.from && e.from + 4 <= e.to <= |text| && e.original == text[e.from..e.to]
    ensures e.insert == Dollars(e.delimiterType) + text[e.from + 2..e.to - 2] + Dollars(e.delimiterType)
    ensures strict ==> validate(text[e.from + 2..e.to - 2]).isValid
  {
    ConvertedFrom(convert, ds, strict, validate, |ds|, e);
    var k :| 0 <= k < |ds| && ShouldConvert(ds[k], strict, validate) && e == convert(ds[k]);
    assert ds[k] in ds;
  }

  /** Edits inside the document pass the adapter's bounds check. */
  lemma EditsInDocumentAccepted(docLength: int, es: seq<NormalizationEdit>)
    requires forall e :: e in es ==> 0 <= e.from <= e.to <= docLength
    ensures EditorAdapter.ApplyEdits(docLength, es).success
  {
    assert forall i :: 0 <= i < |es| ==> es[i] in es;
  }

  /** Disjoint descending edits reach the editor in the order they were planned. */
  lemma DescendingEditsKeepOrder(es: seq<NormalizationEdit>)
    requires EditsDescending(es)
    ensures EditorAdapter.BuildTransaction(es) == Sorting.Map(EditorAdapter.ToChange, es)
  {
    EditorAdapter.TransactionKeepsDescendingOrder(es);
  }

  /**
   `normalize` over the document text and the protected spans its syntax tree
   reports: safe regions, detection, then planning. Every edit replaces
   exactly the delimiter text it covers; over well-formed spans the edits are
   disjoint and strictly descending, so they can be applied one by one.
   */
  method Normalize(text: string, spans: seq<Span>, strict: bool) returns (r: NormalizationResult)
    ensures r.stats.totalFound == |DelimiterDetector.Detect(text, TreeWalker.GetSafeRegions(spans, |text|))|
    ensures r.stats.converted + r.stats.skipped == r.stats.totalFound && |r.edits| == r.stats.converted
    ensures forall e :: e in r.edits ==>
      && 0 <= e.from && e.from + 4 <= e.to <= |text|
      && e.original == text[e.from..e.to]
      && e.insert == Dollars(e.delimiterType) + text[e.from + 2..e.to - 2] + Dollars(e.delimiterType)
    ensures strict ==> forall e :: e in r.edits ==>
      e.from + 4 <= e.to <= |text| && Validator.Validate(text[e.from + 2..e.to - 2]).isValid
    ensures !strict ==> r.stats.skipped == 0 && r.errors == []
    ensures var ds := DelimiterDetector.Detect(text, TreeWalker.GetSafeRegions(spans, |text|));
      r.edits == Sorting.SortBy(Converted(text, ds, strict, Validator.Validate, |ds|), DescendingFrom)
    ensures var ds := DelimiterDetector.Detect(text, TreeWalker.GetSafeRegions(spans, |text|));
      r.errors == SkippedErrors(ds, strict, Validator.Validate, |ds|)
    ensures TreeWalker.WellFormedSpans(spans, |text|) ==> EditsDescending(r.edits)
    ensures EditorAdapter.ApplyEdits(|text|, r.edits).success
    ensures TreeWalker.WellFormedSpans(spans, |text|) ==>
      EditorAdapter.BuildTransaction(r.edits) == Sorting.Map(EditorAdapter.ToChange, r.edits)
  {
    var regions := TreeWalker.GetSafeRegions(spans, |text|);
    var ds := DelimiterDetector.Detect(text, regions);
    var validate: string -> ValidationResult := Validator.Validate;
    r := Plan(text, ds, strict, validate);
    ConverterFaithful(text);
    var converted := Converted(text, ds, strict, validate, |ds|);
    forall e | e in r.edits
      ensures 0 <= e.from && e.from + 4 <= e.to <= |text| && e.original == text[e.from..e.to]
      ensures e.insert == Dollars(e.delimiterType) + text[e.from + 2..e.to - 2] + Dollars(e.delimiterType)
      ensures strict ==> Validator.Validate(text[e.from + 2..e.to - 2]).isValid
    {
      assert e in multiset(converted);
      PlannedEditFaithful(Converter(text), text, ds, strict, validate, e);
    }
    if TreeWalker.WellFormedSpans(spans, |text|) {
      TreeWalker.SafeRegionsAscending(spans, |text|);
      DelimiterDetector.DetectOrdered(text, regions);
      ConverterKeepsRange(text);
      ConvertedAscending(Converter(text), ds, strict, validate, |ds|);
      SortedEditsDescending(converted);
      DescendingEditsKeepOrder(r.edits);
    }
    EditsInDocumentAccepted(|text|, r.edits);
  }

  /** The document of the inline normalization example. */
  function InlineDoc(): string { "This is \\(inline\\) math." }

  function InlineDocDelimiter(): MathDelimiter {
    MathDelimiter(Inline, 8, 18, "\\(", "\\)", "inline", 10, 16)
  }

  lemma InlineDocCloser()
    ensures DelimiterDetector.FindCloser(InlineDoc(), 10, 24, ')') == Some(16)
  {
    DelimiterDetector.IndexOfBackslashAt(InlineDoc(), 10, 16);
  }

  lemma InlineDocOpener()
    ensures DelimiterDetector.StepAt(InlineDoc(), 8, 24) == DelimiterDetector.Emit(InlineDocDelimiter(), 18)
  {
    InlineDocCloser();
    assert DelimiterDetector.CharAt(InlineDoc(), 9) == Some('(');
    DelimiterDetector.InlineOpenerEmits(InlineDoc(), 8, 24, 16);
    InlineDocDelimiterMade();
  }

  lemma InlineDocDelimiterMade()
    ensures DelimiterDetector.MakeDelimiter(InlineDoc(), Inline, 8, 16) == InlineDocDelimiter()
  {
    assert InlineDoc()[10..16] == "inline";
  }

  lemma InlineDocTail()
    ensures DelimiterDetector.ScanFrom(InlineDoc(), 18, 24) == []
  {
    assert DelimiterDetector.IndexOfBackslash(InlineDoc(), 18) == None;
    assert DelimiterDetector.Step(InlineDoc(), 18, 24) == DelimiterDetector.Stop;
  }

  lemma InlineDocScan()
    ensures DelimiterDetector.ScanFrom(InlineDoc(), 0, 24) == [InlineDocDelimiter()]
  {
    DelimiterDetector.IndexOfBackslashAt(InlineDoc(), 0, 8);
    InlineDocOpener();
    assert DelimiterDetector.Step(InlineDoc(), 0, 24) == DelimiterDetector.Emit(InlineDocDelimiter(), 18);
    InlineDocTail();
  }

  /** Without protected spans, the document holds one inline delimiter at 8..18. */
  lemma InlineDocDetected()
    ensures DelimiterDetector.Detect(InlineDoc(), TreeWalker.GetSafeRegions([], |InlineDoc()|)) == [InlineDocDelimiter()]
  {
    assert |InlineDoc()| == 24;
    TreeWalker.NoProtectedSpansWholeDocument(24);
    InlineDocScan();
    var regions := [TextRegion(Text, 0, 24)];
    assert DelimiterDetector.ScanRegion(InlineDoc(), regions[0]) == [InlineDocDelimiter()];
    assert DelimiterDetector.Detect(InlineDoc(), regions[1..]) == [];
  }

  /** The planned edits for that document: the converted delimiter alone. */
  lemma InlineDocPlanned(validate: string -> ValidationResult)
    ensures Sorting.SortBy(Converted(InlineDoc(), [InlineDocDelimiter()], false, validate, 1), DescendingFrom)
         == [NormalizationEdit(8, 18, "$inline$", "\\(inline\\)", Inline)]
  {
    var ds := [InlineDocDelimiter()];
    NonStrictConvertsAll(InlineDoc(), ds, validate, 1);
    assert InlineDoc()[8..18] == "\\(inline\\)";
    var e := ConvertDelimiter(InlineDocDelimiter(), InlineDoc());
    assert e == NormalizationEdit(8, 18, "$inline$", "\\(inline\\)", Inline);
    assert Converted(InlineDoc(), ds, false, validate, 1) == [e];
    assert Sorting.SortBy([e], DescendingFrom) == [e];
  }

  /**
   `normalize` in non-strict mode on `This is \(inline\) math.`: one edit,
   replacing `\(inline\)` at 8..18 by `$inline$`, and one conversion.
   */
  method NormalizeInlineExample() returns (r: NormalizationResult)
    ensures |r.edits| == 1 && r.stats.converted == 1
    ensures r.edits[0] == NormalizationEdit(8, 18, "$inline$", "\\(inline\\)", Inline)
  {
    r := Normalize(InlineDoc(), [], false);
    InlineDocDetected();
    InlineDocPlanned(Validator.Validate);
  }
}
