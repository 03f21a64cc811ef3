/**
 The delimiter scanner: scans each safe region left to right for `\(` and `\[`
 openers, pairs each with the first unescaped matching closer, and treats a
 backslash pair `\\` as one unit that never opens or closes anything.

 Offsets are positions in the whole document. Like the plugin's `scanRegion`,
 the scanner reads the character after a backslash from the whole document, so a closer
 whose backslash is the last character of a region is accepted and the
 delimiter then ends one past the region.
 */
module DelimiterDetector {
  import opened Types
  import opened Text

  function OpenChar(kind: DelimiterType): char {
    if kind.Inline? then '(' else '['
  }

  function CloseChar(kind: DelimiterType): char {
    if kind.Inline? then ')' else ']'
  }

  function OpenToken(kind: DelimiterType): string {
    ['\\', OpenChar(kind)]
  }

  function CloseToken(kind: DelimiterType): string {
    ['\\', CloseChar(kind)]
  }

  /** JavaScript's `text[i]`: the character, or undefined outside the string. */
  function CharAt(text: string, i: int): Option<char> {
    if 0 <= i < |text| then Some(text[i]) else None
  }

  /** JavaScript's `text.indexOf('\\', from)`; None stands for -1. */
  function IndexOfBackslash(text: string, from: nat): (r: Option<nat>)
    ensures r.Some? ==> from <= r.value < |text| && text[r.value] == '\\'
    ensures forall j :: from <= j < |text| && (r.None? || j < r.value) ==> text[j] != '\\'
    decreases |text| - from
  {
    if from >= |text| then None
    else if text[from] == '\\' then Some(from)
    else IndexOfBackslash(text, from + 1)
  }

  /**
   An unescaped closer `\c` at `j` when scanning starts at `start`: a backslash
   followed by `c` and preceded (down to `start`) by an even run of backslashes.
   */
  predicate IsCloserAt(text: string, start: nat, j: int, c: char) {
    start <= j && j + 1 < |text| && text[j] == '\\' && text[j + 1] == c
    && SlashRunBefore(text, start, j) % 2 == 0
  }

  /** An unescaped opener of `kind` at `p` when the region scan starts at `lo`. */
  predicate IsOpenerAt(text: string, lo: nat, p: int, kind: DelimiterType) {
    lo <= p && p + 1 < |text| && text[p] == '\\' && text[p + 1] == OpenChar(kind)
    && SlashRunBefore(text, lo, p) % 2 == 0
  }

  /** The loop of `findCloser` from `index`, which is a token boundary. */
  function FindCloserFrom(text: string, ghost start: nat, index: nat, limit: int, c: char): (r: Option<nat>)
    requires start <= index <= |text| && c != '\\'
    requires Boundary(text, start, index)
    requires forall j :: start <= j < index ==> !IsCloserAt(text, start, j, c)
    ensures r.Some? ==> index <= r.value < limit && IsCloserAt(text, start, r.value, c)
    ensures forall j :: start <= j < limit && (r.None? || j < r.value) ==> !IsCloserAt(text, start, j, c)
    decreases |text| - index
  {
    if index >= limit then None
    else match IndexOfBackslash(text, index)
      case None => None
      case Some(k) =>
        assert SlashRunBefore(text, start, k) % 2 == 0 by {
          if k > index {
            RunAfterOther(text, start, k - 1);
          }
        }
        if k >= limit then None
        else if CharAt(text, k + 1) == Some('\\') then
          RunAfterBackslash(text, start, k);
          RunAfterBackslash(text, start, k + 1);
          FindCloserFrom(text, start, k + 2, limit, c)
        else if CharAt(text, k + 1) == Some(c) then Some(k)
        else FindCloserFrom(text, start, k + 1, limit, c)
  }

  /**
   `findCloser`: the first unescaped `\c` whose backslash lies in [start, limit),
   or None. The character after that backslash may lie at `limit`.
   */
  function FindCloser(text: string, start: nat, limit: int, c: char): (r: Option<nat>)
    requires start <= |text| && c != '\\'
    ensures r.Some? ==> start <= r.value < limit && IsCloserAt(text, start, r.value, c)
    ensures forall j :: start <= j < limit && (r.None? || j < r.value) ==> !IsCloserAt(text, start, j, c)
  {
    FindCloserFrom(text, start, start, limit, c)
  }

  /** What every detected delimiter satisfies with respect to the document. */
  predicate WellFormed(text: string, d: MathDelimiter) {
    && 0 <= d.from
    && d.contentFrom == d.from + 2
    && d.contentTo == d.to - 2
    && d.contentFrom <= d.contentTo
    && d.to <= |text|
    && d.openDelim == OpenToken(d.kind)
    && d.closeDelim == CloseToken(d.kind)
    && text[d.from..d.contentFrom] == d.openDelim
    && text[d.contentTo..d.to] == d.closeDelim
    && d.content == text[d.contentFrom..d.contentTo]
  }

  /** The closer is unescaped and is the first matching closer after the opener. */
  predicate FirstCloser(text: string, d: MathDelimiter) {
    && 0 <= d.contentFrom
    && IsCloserAt(text, d.contentFrom, d.contentTo, CloseChar(d.kind))
    && forall j :: d.contentFrom <= j < d.contentTo ==> !IsCloserAt(text, d.contentFrom, j, CloseChar(d.kind))
  }

  /** Each delimiter ends at or before every later one starts. */
  predicate Ordered(ds: seq<MathDelimiter>) {
    forall i, j :: 0 <= i < j < |ds| ==> ds[i].to <= ds[j].from
  }

  function MakeDelimiter(text: string, kind: DelimiterType, start: nat, closer: nat): (d: MathDelimiter)
    requires start + 2 <= closer && closer + 1 < |text|
    requires text[start] == '\\' && text[start + 1] == OpenChar(kind)
    requires text[closer] == '\\' && text[closer + 1] == CloseChar(kind)
    ensures WellFormed(text, d) && d.kind == kind && d.from == start && d.contentTo == closer
  {
    MathDelimiter(kind, start, closer + 2, OpenToken(kind), CloseToken(kind),
                  text[start + 2..closer], start + 2, closer)
  }

  /**
   At an opener of `kind` at `k`, the scan either emits a delimiter of that kind,
   or, when no unescaped closer follows before `end`, resumes two characters on.
   */
  predicate OpensOrResyncs(text: string, k: nat, end: int, kind: DelimiterType, s: ScanStep) {
    || (s.Emit? && s.delimiter.kind == kind)
    || (s == Advance(k + 2) && NoCloser(text, k + 2, end, CloseChar(kind)))
  }

  /** No unescaped `\c` has its backslash in [start, end). */
  predicate NoCloser(text: string, start: nat, end: int, c: char) {
    forall j :: start <= j < end ==> !IsCloserAt(text, start, j, c)
  }

  /** The outcome of one iteration of the `scanRegion` loop. */
  datatype ScanStep = Stop | Advance(next: nat) | Emit(delimiter: MathDelimiter, next: nat)

  /**
   One iteration of the `scanRegion` loop at `index`: stop when no backslash is
   left before `end`; otherwise act on the first backslash.
   */
  function Step(text: string, index: nat, end: int): (s: ScanStep)
    ensures s.Stop? <==> forall j :: index <= j < end && j < |text| ==> text[j] != '\\'
    ensures !s.Stop? ==> index < end && index < s.next <= |text|
    ensures s.Emit? ==> WellFormed(text, s.delimiter) && FirstCloser(text, s.delimiter)
    ensures s.Emit? ==> index <= s.delimiter.from && s.delimiter.contentTo < end && s.next == s.delimiter.to
  {
    if index >= end then Stop
    else match IndexOfBackslash(text, index)
      case None => Stop
      case Some(k) => if k >= end then Stop else StepAt(text, k, end)
  }

  /**
   The loop body at the backslash `k`: skip a backslash pair; try to close an
   opener (resuming after the closer, or two characters on when there is none);
   otherwise step over the lone backslash.
   */
  function StepAt(text: string, k: nat, end: int): (s: ScanStep)
    requires k < |text| && k < end && text[k] == '\\'
    ensures !s.Stop? && k < s.next <= |text|
    ensures CharAt(text, k + 1) == Some('\\') ==> s == Advance(k + 2)
    ensures CharAt(text, k + 1) == Some('(') ==> OpensOrResyncs(text, k, end, Inline, s)
    ensures CharAt(text, k + 1) == Some('[') ==> OpensOrResyncs(text, k, end, Display, s)
    ensures CharAt(text, k + 1) !in {Some('\\'), Some('('), Some('[')} ==> s == Advance(k + 1)
    ensures s.Emit? ==> WellFormed(text, s.delimiter) && FirstCloser(text, s.delimiter)
    ensures s.Emit? ==> k == s.delimiter.from && s.delimiter.contentTo < end && s.next == s.delimiter.to
  {
    if CharAt(text, k + 1) == Some('\\') then Advance(k + 2)
    else if CharAt(text, k + 1) == Some('(') || CharAt(text, k + 1) == Some('[') then
      var kind := if text[k + 1] == '(' then Inline else Display;
      match FindCloser(text, k + 2, end, CloseChar(kind))
      case Some(q) => Emit(MakeDelimiter(text, kind, k, q), q + 2)
      case None => Advance(k + 2)
    else Advance(k + 1)
  }

  /** The loop of `scanRegion` from `index` up to the region end `end`. */
  function ScanFrom(text: string, index: nat, end: int): (ds: seq<MathDelimiter>)
    ensures forall d :: d in ds ==> WellFormed(text, d) && FirstCloser(text, d)
    ensures forall d :: d in ds ==> index <= d.from && d.contentTo < end
    ensures Ordered(ds)
    decreases end - index
  {
    match Step(text, index, end)
    case Stop => []
    case Advance(next) => ScanFrom(text, next, end)
    case Emit(d, next) =>
      var rest := ScanFrom(text, next, end);
      OrderedCons(d, rest);
      [d] + rest
  }

  lemma OrderedCons(d: MathDelimiter, rest: seq<MathDelimiter>)
    requires Ordered(rest) && forall x :: x in rest ==> d.to <= x.from
    ensures Ordered([d] + rest)
  {
    forall i, j | 0 <= i < j < |[d] + rest| ensures ([d] + rest)[i].to <= ([d] + rest)[j].from {
      assert ([d] + rest)[j] == rest[j - 1];
      if i > 0 {
        assert ([d] + rest)[i] == rest[i - 1];
      }
    }
  }

  /**
   `scanRegion`, which starts at `region.from`. JavaScript's `indexOf` treats a
   negative start as 0, so the scan starts at the clamped offset `RegionStart`.
   */
  function ScanRegion(text: string, region: TextRegion): (ds: seq<MathDelimiter>)
    ensures forall d :: d in ds ==> WellFormed(text, d) && FirstCloser(text, d)
    ensures forall d :: d in ds ==> region.from <= d.from && d.contentTo < region.to
    ensures Ordered(ds)
  {
    ScanFrom(text, RegionStart(region), region.to)
  }

  function RegionStart(region: TextRegion): nat {
    if region.from < 0 then 0 else region.from
  }

  /** `detect`: scan the regions in order and concatenate what each yields. */
  function Detect(text: string, regions: seq<TextRegion>): (ds: seq<MathDelimiter>)
    ensures forall d :: d in ds ==> WellFormed(text, d) && FirstCloser(text, d)
    ensures forall d :: d in ds ==>
      exists k :: 0 <= k < |regions| && regions[k].from <= d.from && d.contentTo < regions[k].to
  {
    if regions == [] then []
    else
      var first := ScanRegion(text, regions[0]);
      var rest := Detect(text, regions[1..]);
      assert forall d :: d in rest ==>
        exists k :: 1 <= k < |regions| && regions[k].from <= d.from && d.contentTo < regions[k].to by {
        forall d | d in rest
          ensures exists k :: 1 <= k < |regions| && regions[k].from <= d.from && d.contentTo < regions[k].to
        {
          var k :| 0 <= k < |regions[1..]| && regions[1..][k].from <= d.from && d.contentTo < regions[1..][k].to;
          assert regions[k + 1] == regions[1..][k];
        }
      }
      first + rest
  }

  // ---------------------------------------------------------------------------
  // Properties of the scanner

  lemma WellFormedChars(text: string, d: MathDelimiter)
    requires WellFormed(text, d)
    ensures text[d.from] == '\\' && text[d.from + 1] == OpenChar(d.kind)
    ensures text[d.contentTo] == '\\' && text[d.to - 1] == CloseChar(d.kind)
  {
    assert text[d.from] == text[d.from..d.contentFrom][0];
    assert text[d.from + 1] == text[d.from..d.contentFrom][1];
    assert text[d.contentTo] == text[d.contentTo..d.to][0];
    assert text[d.to - 1] == text[d.contentTo..d.to][1];
  }

  /** The first backslash at or after a token boundary is itself unescaped. */
  lemma FirstBackslashUnescaped(text: string, lo: nat, index: nat, k: nat)
    requires lo <= index <= k < |text| && Boundary(text, lo, index) && text[k] == '\\'
    requires forall j :: index <= j < k ==> text[j] != '\\'
    ensures SlashRunBefore(text, lo, k) % 2 == 0
  {
    if k > index {
      RunAfterOther(text, lo, k - 1);
    }
  }

  /**
   From a token boundary, an emitted delimiter starts at an unescaped opener
   and the next index is again a token boundary.
   */
  lemma StepPreserves(text: string, lo: nat, index: nat, end: int)
    requires lo <= index <= |text| && Boundary(text, lo, index)
    ensures Step(text, index, end).Emit? ==>
      IsOpenerAt(text, lo, Step(text, index, end).delimiter.from, Step(text, index, end).delimiter.kind)
    ensures !Step(text, index, end).Stop? ==> Boundary(text, lo, Step(text, index, end).next)
  {
    if index < end {
      match IndexOfBackslash(text, index)
      case None =>
      case Some(k) =>
        if k < end {
          FirstBackslashUnescaped(text, lo, index, k);
          StepAtPreserves(text, lo, k, end);
        }
    }
  }

  lemma StepAtPreserves(text: string, lo: nat, k: nat, end: int)
    requires lo <= k < |text| && k < end && text[k] == '\\' && SlashRunBefore(text, lo, k) % 2 == 0
    ensures StepAt(text, k, end).Emit? ==> IsOpenerAt(text, lo, k, StepAt(text, k, end).delimiter.kind)
    ensures Boundary(text, lo, StepAt(text, k, end).next)
  {
    if CharAt(text, k + 1) == Some('\\') {
      RunAfterBackslash(text, lo, k);
      RunAfterBackslash(text, lo, k + 1);
    } else if CharAt(text, k + 1) == Some('(') || CharAt(text, k + 1) == Some('[') {
      var kind := if text[k + 1] == '(' then Inline else Display;
      match FindCloser(text, k + 2, end, CloseChar(kind))
      case Some(q) =>
        assert text[q + 1] == CloseChar(kind);
        RunAfterOther(text, lo, q + 1);
      case None =>
        RunAfterOther(text, lo, k + 1);
    }
  }

  /** Whether the step at `index` leaves offset `p` behind without emitting a delimiter over it. */
  predicate PassedOver(s: ScanStep, p: int) {
    (s.Stop? || p < s.next) && !(s.Emit? && s.delimiter.from <= p < s.delimiter.to)
  }

  /** An unescaped opener a step passes over has no closer before the region end. */
  lemma StepComplete(text: string, lo: nat, index: nat, end: int, p: int, kind: DelimiterType)
    requires lo <= index <= |text| && Boundary(text, lo, index)
    requires index <= p < end && IsOpenerAt(text, lo, p, kind)
    requires PassedOver(Step(text, index, end), p)
    ensures FindCloser(text, p + 2, end, CloseChar(kind)).None?
  {
    match IndexOfBackslash(text, index)
    case None =>
      assert false;
    case Some(k) =>
      if p < k || k >= end {
        assert false;
      } else {
        FirstBackslashUnescaped(text, lo, index, k);
        if CharAt(text, k + 1) == Some('\\') {
          RunAfterBackslash(text, lo, k);
          assert false;
        } else if CharAt(text, k + 1) == Some('(') || CharAt(text, k + 1) == Some('[') {
          var kind' := if text[k + 1] == '(' then Inline else Display;
          assert p == k && kind == kind';
        } else {
          assert false;
        }
      }
  }

  /** Every delimiter starts at an unescaped opener: never at the second half of `\\\\`. */
  lemma {:induction false} ScanOpenersUnescaped(text: string, lo: nat, index: nat, end: int)
    requires lo <= index <= |text| && Boundary(text, lo, index)
    ensures forall d :: d in ScanFrom(text, index, end) ==> IsOpenerAt(text, lo, d.from, d.kind)
    decreases end - index
  {
    StepPreserves(text, lo, index, end);
    match Step(text, index, end)
    case Stop =>
    case Advance(next) =>
      ScanOpenersUnescaped(text, lo, next, end);
    case Emit(d, next) =>
      ScanOpenersUnescaped(text, lo, next, end);
  }

  /** The offset `p` lies inside one of the delimiters. */
  predicate Inside(p: int, ds: seq<MathDelimiter>) {
    exists i :: 0 <= i < |ds| && ds[i].from <= p < ds[i].to
  }

  lemma InsideCons(p: int, d: MathDelimiter, ds: seq<MathDelimiter>)
    ensures Inside(p, [d] + ds) <==> (d.from <= p < d.to) || Inside(p, ds)
  {
    var all := [d] + ds;
    if Inside(p, ds) {
      var i :| 0 <= i < |ds| && ds[i].from <= p < ds[i].to;
      assert all[i + 1] == ds[i];
    }
    if d.from <= p < d.to {
      assert all[0] == d;
    }
    if Inside(p, all) {
      var i :| 0 <= i < |all| && all[i].from <= p < all[i].to;
      if i > 0 {
        assert ds[i - 1] == all[i];
        assert Inside(p, ds);
      } else {
        assert d == all[i];
      }
    }
  }

  /**
   The scanner misses only openers without a closer: an unescaped opener that
   lies in no detected delimiter has no matching closer before the region end.
   */
  lemma {:induction false} ScanMissesOnlyUnclosedOpeners(text: string, lo: nat, index: nat, end: int)
    requires lo <= index <= |text| && Boundary(text, lo, index)
    ensures forall p, kind ::
              index <= p < end && IsOpenerAt(text, lo, p, kind) && !Inside(p, ScanFrom(text, index, end))
              ==> FindCloser(text, p + 2, end, CloseChar(kind)).None?
    decreases end - index
  {
    var ds := ScanFrom(text, index, end);
    var s := Step(text, index, end);
    StepPreserves(text, lo, index, end);
    if !s.Stop? {
      ScanMissesOnlyUnclosedOpeners(text, lo, s.next, end);
    }
    forall p, kind | index <= p < end && IsOpenerAt(text, lo, p, kind) && !Inside(p, ds)
      ensures FindCloser(text, p + 2, end, CloseChar(kind)).None?
    {
      if s.Emit? {
        InsideCons(p, s.delimiter, ScanFrom(text, s.next, end));
      }
      if PassedOver(s, p) {
        StepComplete(text, lo, index, end, p, kind);
      }
    }
  }

  lemma OrderedConcat(a: seq<MathDelimiter>, b: seq<MathDelimiter>)
    requires Ordered(a) && Ordered(b)
    requires forall x, y :: x in a && y in b ==> x.to <= y.from
    ensures Ordered(a + b)
  {
    forall i, j | 0 <= i < j < |a + b| ensures (a + b)[i].to <= (a + b)[j].from {
      if j < |a| {
        assert (a + b)[i] == a[i] && (a + b)[j] == a[j];
      } else if i >= |a| {
        assert (a + b)[i] == b[i - |a|] && (a + b)[j] == b[j - |a|];
      } else {
        assert (a + b)[i] in a && (a + b)[j] in b;
      }
    }
  }

  /**
   A delimiter may end one character past its region, but that character is a
   closing bracket, so a delimiter from a later region cannot start there.
   */
  lemma NoOverlapAcrossRegions(text: string, x: MathDelimiter, y: MathDelimiter, boundary: int)
    requires WellFormed(text, x) && WellFormed(text, y)
    requires x.contentTo < boundary <= y.from
    ensures x.to <= y.from
  {
    WellFormedChars(text, x);
    WellFormedChars(text, y);
  }

  /** Over ascending regions the delimiters are ordered and pairwise disjoint. */
  lemma {:induction false} DetectOrdered(text: string, regions: seq<TextRegion>)
    requires forall i, j :: 0 <= i < j < |regions| ==> regions[i].to <= regions[j].from
    ensures Ordered(Detect(text, regions))
  {
    if regions != [] {
      var first := ScanRegion(text, regions[0]);
      var rest := Detect(text, regions[1..]);
      assert Detect(text, regions) == first + rest;
      DetectOrdered(text, regions[1..]);
      forall x, y | x in first && y in rest ensures x.to <= y.from {
        var k :| 0 <= k < |regions[1..]| && regions[1..][k].from <= y.from && y.contentTo < regions[1..][k].to;
        assert regions[k + 1] == regions[1..][k];
        NoOverlapAcrossRegions(text, x, y, regions[0].to);
      }
      OrderedConcat(first, rest);
    }
  }

  /** Detected delimiters start at strictly increasing offsets. */
  lemma OrderedStrictlyIncreasing(text: string, ds: seq<MathDelimiter>)
    requires Ordered(ds) && forall d :: d in ds ==> WellFormed(text, d)
    ensures forall i, j :: 0 <= i < j < |ds| ==> ds[i].from < ds[j].from
  {
    forall i, j | 0 <= i < j < |ds| ensures ds[i].from < ds[j].from {
      assert ds[i] in ds;
    }
  }

  // ---------------------------------------------------------------------------
  // Worked examples

  /** `indexOf` returns the first backslash at or after `from`. */
  lemma IndexOfBackslashAt(text: string, from: nat, k: nat)
    requires from <= k < |text| && text[k] == '\\'
    requires forall j :: from <= j < k ==> text[j] != '\\'
    ensures IndexOfBackslash(text, from) == Some(k)
  {
  }

  /** An inline opener at `k` whose closer is found at `q` emits the delimiter between them. */
  lemma InlineOpenerEmits(text: string, k: nat, end: int, q: nat)
    requires k < |text| && k < end && text[k] == '\\' && CharAt(text, k + 1) == Some('(')
    requires FindCloser(text, k + 2, end, ')') == Some(q)
    ensures StepAt(text, k, end) == Emit(MakeDelimiter(text, Inline, k, q), q + 2)
  {
  }

  /** The sample document of the inline example and the delimiter it holds. */
  function InlineSample(): string { "Prefix \\(x^2\\) Suffix" }

  function InlineSampleDelimiter(): MathDelimiter {
    MathDelimiter(Inline, 7, 14, "\\(", "\\)", "x^2", 9, 12)
  }

  lemma InlineSampleCloser()
    ensures FindCloser(InlineSample(), 9, 21, ')') == Some(12)
  {
    IndexOfBackslashAt(InlineSample(), 9, 12);
  }

  lemma InlineSampleOpener()
    ensures StepAt(InlineSample(), 7, 21) == Emit(InlineSampleDelimiter(), 14)
  {
    InlineSampleCloser();
    assert CharAt(InlineSample(), 8) == Some('(');
    assert InlineSample()[9..12] == "x^2";
    assert MakeDelimiter(InlineSample(), Inline, 7, 12) == InlineSampleDelimiter();
  }

  lemma InlineSampleTail()
    ensures ScanFrom(InlineSample(), 14, 21) == []
  {
    assert IndexOfBackslash(InlineSample(), 14) == None;
    assert Step(InlineSample(), 14, 21) == Stop;
  }

  /** `Prefix \(x^2\) Suffix` over the whole document: one inline delimiter at 7..14. */
  lemma DetectInlineExample()
    ensures Detect(InlineSample(), [TextRegion(Text, 0, 21)]) == [InlineSampleDelimiter()]
  {
    IndexOfBackslashAt(InlineSample(), 0, 7);
    InlineSampleOpener();
    assert Step(InlineSample(), 0, 21) == Emit(InlineSampleDelimiter(), 14);
    InlineSampleTail();
    assert ScanFrom(InlineSample(), 0, 21) == [InlineSampleDelimiter()];
  }

  /** `Not math \\( text`: the backslash pair never opens a delimiter. */
  lemma EscapedOpenerExample()
    ensures Detect("Not math \\\\( text", [TextRegion(Text, 0, 17)]) == []
  {
    var text := "Not math \\\\( text";
    IndexOfBackslashAt(text, 0, 9);
    assert IndexOfBackslash(text, 11) == None;
    assert Step(text, 0, 17) == Advance(11);
    assert Step(text, 11, 17) == Stop;
  }
}
