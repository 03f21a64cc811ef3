/**
 The safe-region extractor: given the spans of protected syntax nodes (code,
 HTML, front matter, link and image targets) and the document length, compute
 the ascending list of text regions outside every protected span.

 The traversal that collects the spans runs over a `SyntaxNode` tree; the
 parser that builds the tree is not modelled.
 */
module TreeWalker {
  import opened Types
  import Sorting

  /** The names of the nine syntax-node kinds whose text is never scanned. */
  const ProtectedNodes: set<string> :=
    {"FencedCode", "InlineCode", "CodeBlock", "HTMLBlock", "CommentBlock",
     "FrontMatter", "LinkURL", "URL", "Image"}

  /** The membership test the traversal applies to each node's name. */
  predicate IsProtected(name: string) {
    name in ProtectedNodes
  }

  /** A node of the markdown syntax tree, with its offsets and its children in document order. */
  datatype SyntaxNode = SyntaxNode(name: string, from: int, to: int, children: seq<SyntaxNode>)

  function SpanOf(n: SyntaxNode): Span {
    Span(n.from, n.to)
  }

  /**
   The traversal's `enter` callback in pre-order: a protected node contributes
   its span and its children are skipped; any other node is descended into.
   */
  function ProtectedSpans(node: SyntaxNode): (spans: seq<Span>)
    ensures IsProtected(node.name) ==> spans == [SpanOf(node)]
    decreases node, 1
  {
    if IsProtected(node.name) then [SpanOf(node)] else ProtectedSpansOf(node.children)
  }

  /** The traversal over a list of sibling subtrees, left to right. */
  function ProtectedSpansOf(nodes: seq<SyntaxNode>): seq<Span>
    decreases nodes, 0
  {
    if nodes == [] then [] else ProtectedSpans(nodes[0]) + ProtectedSpansOf(nodes[1..])
  }

  /**
   Reference definition: `n` is an outermost protected node under `node`, that
   is, protected and reached from `node` through unprotected ancestors only.
   */
  predicate OutermostProtected(node: SyntaxNode, n: SyntaxNode)
    decreases node
  {
    if IsProtected(node.name) then n == node
    else exists i :: 0 <= i < |node.children| && OutermostProtected(node.children[i], n)
  }

  /** A span is collected exactly when it belongs to an outermost protected node. */
  lemma {:induction false} ProtectedSpansOutermost(node: SyntaxNode, sp: Span)
    ensures sp in ProtectedSpans(node) <==> exists n :: OutermostProtected(node, n) && sp == SpanOf(n)
    decreases node, 1
  {
    if !IsProtected(node.name) {
      var cs := node.children;
      ProtectedSpansOfSiblings(cs, sp);
      if sp in ProtectedSpans(node) {
        var i :| 0 <= i < |cs| && sp in ProtectedSpans(cs[i]);
        ProtectedSpansOutermost(cs[i], sp);
        var n :| OutermostProtected(cs[i], n) && sp == SpanOf(n);
        assert OutermostProtected(node, n);
      }
      if exists n :: OutermostProtected(node, n) && sp == SpanOf(n) {
        var n :| OutermostProtected(node, n) && sp == SpanOf(n);
        var i :| 0 <= i < |cs| && OutermostProtected(cs[i], n);
        ProtectedSpansOutermost(cs[i], sp);
      }
    }
  }

  /** The siblings' spans are the union of each sibling's spans. */
  lemma {:induction false} ProtectedSpansOfSiblings(nodes: seq<SyntaxNode>, sp: Span)
    ensures sp in ProtectedSpansOf(nodes) <==> exists i :: 0 <= i < |nodes| && sp in ProtectedSpans(nodes[i])
    decreases nodes, 0
  {
    if nodes != [] {
      ProtectedSpansOfSiblings(nodes[1..], sp);
      if exists i :: 0 <= i < |nodes| && sp in ProtectedSpans(nodes[i]) {
        var i :| 0 <= i < |nodes| && sp in ProtectedSpans(nodes[i]);
        if i > 0 {
          assert nodes[1..][i - 1] == nodes[i];
        }
      }
      if sp in ProtectedSpansOf(nodes[1..]) {
        var i :| 0 <= i < |nodes[1..]| && sp in ProtectedSpans(nodes[1..][i]);
        assert nodes[1..][i] == nodes[i + 1];
      }
    }
  }

  function SpanFrom(s: Span): int {
    s.from
  }

  function Max(a: int, b: int): int {
    if a < b then b else a
  }

  /**
   One step per span, in the given order: emit the gap [cursor, span.from)
   when it is non-empty, then advance the cursor to max(cursor, span.to);
   finally emit the tail [cursor, docLength) when it is non-empty.
   */
  function Invert(spans: seq<Span>, cursor: int, docLength: int): (rs: seq<TextRegion>)
    ensures forall r :: r in rs ==> r.kind == Text && cursor <= r.from < r.to
  {
    if spans == [] then
      if cursor < docLength then [TextRegion(Text, cursor, docLength)] else []
    else
      var gap := if spans[0].from > cursor then [TextRegion(Text, cursor, spans[0].from)] else [];
      gap + Invert(spans[1..], Max(cursor, spans[0].to), docLength)
  }

  /** Sort the protected spans by start, then invert them from cursor 0. */
  function GetSafeRegions(spans: seq<Span>, docLength: int): (rs: seq<TextRegion>)
    ensures forall r :: r in rs ==> r.kind == Text && 0 <= r.from < r.to
  {
    Invert(Sorting.SortBy(spans, SpanFrom), 0, docLength)
  }

  /** The linear scan of `isPositionSafe`: true on the first region holding `pos`. */
  function IsPositionSafe(pos: int, rs: seq<TextRegion>): (safe: bool)
    ensures safe <==> exists i :: 0 <= i < |rs| && rs[i].from <= pos < rs[i].to
  {
    if rs == [] then false
    else if pos >= rs[0].from && pos < rs[0].to then true
    else
      var safe := IsPositionSafe(pos, rs[1..]);
      assert forall i :: 1 <= i < |rs| ==> rs[i] == rs[1..][i - 1];
      safe
  }

  // ---------------------------------------------------------------------------
  // Properties of the sweep

  /** Spans as the parser produces them: inside the document, start not after end. */
  predicate WellFormedSpans(spans: seq<Span>, docLength: int) {
    forall i :: 0 <= i < |spans| ==> 0 <= spans[i].from <= spans[i].to <= docLength
  }

  predicate NonInverted(spans: seq<Span>) {
    forall i :: 0 <= i < |spans| ==> spans[i].from <= spans[i].to
  }

  /** Pairwise: every region ends at or before every later region starts. */
  predicate Ascending(rs: seq<TextRegion>) {
    forall i, j :: 0 <= i < j < |rs| ==> rs[i].to <= rs[j].from
  }

  predicate Covers(s: Span, p: int) {
    s.from <= p < s.to
  }

  predicate Covered(p: int, spans: seq<Span>) {
    exists i :: 0 <= i < |spans| && Covers(spans[i], p)
  }

  predicate Contains(r: TextRegion, p: int) {
    r.from <= p < r.to
  }

  predicate InRegions(p: int, rs: seq<TextRegion>) {
    exists i :: 0 <= i < |rs| && Contains(rs[i], p)
  }

  lemma InRegionsConcat(p: int, a: seq<TextRegion>, b: seq<TextRegion>)
    ensures InRegions(p, a + b) <==> InRegions(p, a) || InRegions(p, b)
  {
    if InRegions(p, a + b) {
      var i :| 0 <= i < |a + b| && Contains((a + b)[i], p);
      if i >= |a| {
        assert b[i - |a|] == (a + b)[i];
      } else {
        assert a[i] == (a + b)[i];
      }
    }
    if InRegions(p, b) {
      var i :| 0 <= i < |b| && Contains(b[i], p);
      assert (a + b)[i + |a|] == b[i];
    }
    if InRegions(p, a) {
      var i :| 0 <= i < |a| && Contains(a[i], p);
      assert (a + b)[i] == a[i];
    }
  }

  lemma CoveredCons(p: int, spans: seq<Span>)
    requires spans != []
    ensures Covered(p, spans) <==> Covers(spans[0], p) || Covered(p, spans[1..])
  {
    if Covered(p, spans) {
      var i :| 0 <= i < |spans| && Covers(spans[i], p);
      if i > 0 {
        assert spans[1..][i - 1] == spans[i];
      }
    }
    if Covered(p, spans[1..]) {
      var i :| 0 <= i < |spans[1..]| && Covers(spans[1..][i], p);
      assert spans[i + 1] == spans[1..][i];
    }
  }

  /** Covered depends only on which spans there are, not on their order. */
  lemma CoveredPermutation(p: int, a: seq<Span>, b: seq<Span>)
    requires multiset(a) == multiset(b)
    ensures Covered(p, a) <==> Covered(p, b)
  {
    if Covered(p, a) {
      var i :| 0 <= i < |a| && Covers(a[i], p);
      assert a[i] in multiset(b);
      var j :| 0 <= j < |b| && b[j] == a[i];
    }
    if Covered(p, b) {
      var i :| 0 <= i < |b| && Covers(b[i], p);
      assert b[i] in multiset(a);
      var j :| 0 <= j < |a| && a[j] == b[i];
    }
  }

  lemma SortedTail(spans: seq<Span>)
    requires spans != [] && Sorting.SortedBy(spans, SpanFrom)
    ensures Sorting.SortedBy(spans[1..], SpanFrom)
    ensures forall i :: 0 <= i < |spans[1..]| ==> spans[0].from <= spans[1..][i].from
  {
    forall i | 0 <= i < |spans[1..]| ensures spans[0].from <= spans[1..][i].from {
      assert spans[1..][i] == spans[i + 1];
      assert SpanFrom(spans[0]) <= SpanFrom(spans[i + 1]);
    }
  }

  /** Emitted regions stay below the document end when spans do. */
  lemma {:induction false} InvertBounded(spans: seq<Span>, cursor: int, docLength: int)
    requires forall i :: 0 <= i < |spans| ==> spans[i].from <= docLength
    ensures forall r :: r in Invert(spans, cursor, docLength) ==> r.to <= docLength
  {
    if spans != [] {
      InvertBounded(spans[1..], Max(cursor, spans[0].to), docLength);
    }
  }

  /** Regions come out strictly ascending and disjoint because the cursor only grows. */
  lemma {:induction false} InvertAscending(spans: seq<Span>, cursor: int, docLength: int)
    requires NonInverted(spans)
    ensures Ascending(Invert(spans, cursor, docLength))
  {
    if spans != [] {
      var c' := Max(cursor, spans[0].to);
      InvertAscending(spans[1..], c', docLength);
    }
  }

  /** No region shares an offset with a span, nor straddles an empty span. */
  lemma {:induction false} InvertAvoids(spans: seq<Span>, cursor: int, docLength: int)
    requires Sorting.SortedBy(spans, SpanFrom) && NonInverted(spans)
    ensures forall r, s :: r in Invert(spans, cursor, docLength) && s in spans ==> r.to <= s.from || s.to <= r.from
  {
    if spans != [] {
      SortedTail(spans);
      InvertAvoids(spans[1..], Max(cursor, spans[0].to), docLength);
      assert spans == [spans[0]] + spans[1..];
    }
  }

  /** Over spans sorted by start, the output is exactly [cursor, L) minus the spans. */
  lemma {:induction false} InvertComplement(spans: seq<Span>, cursor: int, docLength: int, p: int)
    requires Sorting.SortedBy(spans, SpanFrom)
    requires WellFormedSpans(spans, docLength)
    ensures InRegions(p, Invert(spans, cursor, docLength))
        <==> cursor <= p < docLength && !Covered(p, spans)
  {
    if spans != [] {
      var s := spans[0];
      var c' := Max(cursor, s.to);
      var rest := Invert(spans[1..], c', docLength);
      var gap := if s.from > cursor then [TextRegion(Text, cursor, s.from)] else [];
      SortedTail(spans);
      InvertComplement(spans[1..], c', docLength, p);
      InRegionsConcat(p, gap, rest);
      CoveredCons(p, spans);
      assert InRegions(p, gap) <==> cursor <= p < s.from;
      if p < s.from {
        assert !Covered(p, spans[1..]);
      }
    }
  }

  // ---------------------------------------------------------------------------
  // Order independence

  lemma InvertCons(x: Span, t: seq<Span>, c: int, docLength: int)
    ensures Invert([x] + t, c, docLength)
         == (if x.from > c then [TextRegion(Text, c, x.from)] else []) + Invert(t, Max(c, x.to), docLength)
  {
    assert ([x] + t)[1..] == t;
  }

  /** Two adjacent spans with the same start may trade places. */
  lemma SwapTie(y: Span, x: Span, t: seq<Span>, c: int, docLength: int)
    requires y.from == x.from && x.from <= x.to && y.from <= y.to
    ensures Invert([y] + ([x] + t), c, docLength) == Invert([x] + ([y] + t), c, docLength)
  {
    InvertCons(y, [x] + t, c, docLength);
    InvertCons(x, t, Max(c, y.to), docLength);
    InvertCons(x, [y] + t, c, docLength);
    InvertCons(y, t, Max(c, x.to), docLength);
  }

  lemma RegroupTie<T>(p: seq<T>, x: T, r: seq<T>)
    requires p != []
    ensures p + [x] + r == [p[0]] + (p[1..] + [x] + r)
    ensures [x] + p[1..] + r == [x] + (p[1..] + r)
    ensures [x] + p + r == [x] + ([p[0]] + (p[1..] + r))
  {
    assert p == [p[0]] + p[1..];
  }

  /** A span may move ahead of a run of spans with the same start. */
  lemma {:induction false} InvertMoveTie(c: int, p: seq<Span>, x: Span, r: seq<Span>, docLength: int)
    requires forall i :: 0 <= i < |p| ==> p[i].from == x.from && p[i].from <= p[i].to
    requires x.from <= x.to
    ensures Invert(p + [x] + r, c, docLength) == Invert([x] + p + r, c, docLength)
    decreases |p|
  {
    if p != [] {
      var y, p' := p[0], p[1..];
      var c1 := Max(c, y.to);
      RegroupTie(p, x, r);
      calc {
        Invert(p + [x] + r, c, docLength);
        Invert([y] + (p' + [x] + r), c, docLength);
        { InvertCons(y, p' + [x] + r, c, docLength); }
        (if y.from > c then [TextRegion(Text, c, y.from)] else []) + Invert(p' + [x] + r, c1, docLength);
        { InvertMoveTie(c1, p', x, r, docLength); }
        (if y.from > c then [TextRegion(Text, c, y.from)] else []) + Invert([x] + (p' + r), c1, docLength);
        { InvertCons(y, [x] + (p' + r), c, docLength); }
        Invert([y] + ([x] + (p' + r)), c, docLength);
        { SwapTie(y, x, p' + r, c, docLength); }
        Invert([x] + ([y] + (p' + r)), c, docLength);
        Invert([x] + p + r, c, docLength);
      }
    }
  }

  /** Removing one element keeps a sequence sorted. */
  lemma SortedRemove(b: seq<Span>, j: int)
    requires 0 <= j < |b| && Sorting.SortedBy(b, SpanFrom)
    ensures Sorting.SortedBy(b[..j] + b[j + 1..], SpanFrom)
  {
    var b' := b[..j] + b[j + 1..];
    forall i, i' | 0 <= i < i' < |b'| ensures SpanFrom(b'[i]) <= SpanFrom(b'[i']) {
      var bi := if i < j then i else i + 1;
      var bi' := if i' < j then i' else i' + 1;
      assert b'[i] == b[bi] && b'[i'] == b[bi'];
    }
  }

  /** In a sorted permutation, everything before an occurrence of the minimum ties with it. */
  lemma TiesBefore(a: seq<Span>, b: seq<Span>, j: int)
    requires multiset(a) == multiset(b) && a != []
    requires Sorting.SortedBy(a, SpanFrom) && Sorting.SortedBy(b, SpanFrom)
    requires 0 <= j < |b| && b[j] == a[0]
    ensures forall i :: 0 <= i < j ==> b[i].from == a[0].from
  {
    assert b[0] in multiset(a);
    var k :| 0 <= k < |a| && a[k] == b[0];
    assert SpanFrom(a[0]) <= SpanFrom(a[k]);
    forall i | 0 <= i < j ensures b[i].from == a[0].from {
      assert SpanFrom(b[0]) <= SpanFrom(b[i]) <= SpanFrom(b[j]);
    }
  }

  lemma MultisetRemove(a: seq<Span>, b: seq<Span>, j: int)
    requires multiset(a) == multiset(b) && a != []
    requires 0 <= j < |b| && b[j] == a[0]
    ensures multiset(a[1..]) == multiset(b[..j] + b[j + 1..])
  {
    assert a == [a[0]] + a[1..];
    assert multiset(a) == multiset{a[0]} + multiset(a[1..]);
    assert b == b[..j] + [b[j]] + b[j + 1..];
    assert multiset(b) == multiset(b[..j]) + multiset{b[j]} + multiset(b[j + 1..]);
    assert multiset(b[..j] + b[j + 1..]) == multiset(b[..j]) + multiset(b[j + 1..]);
    assert multiset(a[1..]) == multiset(a) - multiset{a[0]};
    assert multiset(b[..j] + b[j + 1..]) == multiset(b) - multiset{b[j]};
  }

  lemma NonInvertedPermutation(a: seq<Span>, b: seq<Span>)
    requires multiset(a) == multiset(b) && NonInverted(a)
    ensures NonInverted(b)
  {
    forall i | 0 <= i < |b| ensures b[i].from <= b[i].to {
      assert b[i] in multiset(a);
    }
  }

  lemma NonInvertedTail(a: seq<Span>)
    requires a != [] && NonInverted(a)
    ensures NonInverted(a[1..])
  {
    forall i | 0 <= i < |a[1..]| ensures a[1..][i].from <= a[1..][i].to {
      assert a[1..][i] == a[i + 1];
    }
  }

  /** The spans before position `j` of `b`, all tying with `x`, form a movable run. */
  lemma TieRun(b: seq<Span>, j: int, x: Span)
    requires 0 <= j <= |b| && NonInverted(b)
    requires forall i :: 0 <= i < j ==> b[i].from == x.from
    ensures forall i :: 0 <= i < |b[..j]| ==> b[..j][i].from == x.from && b[..j][i].from <= b[..j][i].to
  {
    forall i | 0 <= i < |b[..j]| ensures b[..j][i].from == x.from && b[..j][i].from <= b[..j][i].to {
      assert b[..j][i] == b[i];
    }
  }

  lemma SplitAt<T>(b: seq<T>, j: int)
    requires 0 <= j < |b|
    ensures b == b[..j] + [b[j]] + b[j + 1..]
    ensures [b[j]] + b[..j] + b[j + 1..] == [b[j]] + (b[..j] + b[j + 1..])
  {
  }

  /**
   Pulling the first span of `a` out of `b`, where it sits behind a run of ties,
   reduces equal inversions of the rests to equal inversions of the wholes.
   */
  lemma InvertPullTie(a: seq<Span>, b: seq<Span>, j: int, c: int, docLength: int)
    requires a != [] && 0 <= j < |b| && b[j] == a[0] && NonInverted(b)
    requires forall i :: 0 <= i < j ==> b[i].from == a[0].from
    requires Invert(a[1..], Max(c, a[0].to), docLength)
          == Invert(b[..j] + b[j + 1..], Max(c, a[0].to), docLength)
    ensures Invert(a, c, docLength) == Invert(b, c, docLength)
  {
    var x, p, r := a[0], b[..j], b[j + 1..];
    var b' := p + r;
    TieRun(b, j, x);
    SplitAt(b, j);
    calc {
      Invert(b, c, docLength);
      Invert(p + [x] + r, c, docLength);
      { InvertMoveTie(c, p, x, r, docLength); }
      Invert([x] + b', c, docLength);
      { InvertCons(x, b', c, docLength); }
      (if x.from > c then [TextRegion(Text, c, x.from)] else []) + Invert(b', Max(c, x.to), docLength);
      { InvertCons(x, a[1..], c, docLength); }
      Invert([x] + a[1..], c, docLength);
      { assert a == [x] + a[1..]; }
      Invert(a, c, docLength);
    }
  }

  /** Two start-sorted orderings of the same spans invert to the same regions. */
  lemma {:induction false} InvertSortedPermutations(a: seq<Span>, b: seq<Span>, c: int, docLength: int)
    requires multiset(a) == multiset(b)
    requires Sorting.SortedBy(a, SpanFrom) && Sorting.SortedBy(b, SpanFrom)
    requires NonInverted(a)
    ensures Invert(a, c, docLength) == Invert(b, c, docLength)
    decreases |a|
  {
    if a != [] {
      var x := a[0];
      assert x in multiset(b);
      var j :| 0 <= j < |b| && b[j] == x;
      TiesBefore(a, b, j);
      NonInvertedPermutation(a, b);
      NonInvertedTail(a);
      MultisetRemove(a, b, j);
      SortedRemove(b, j);
      SortedTail(a);
      InvertSortedPermutations(a[1..], b[..j] + b[j + 1..], Max(c, x.to), docLength);
      InvertPullTie(a, b, j, c, docLength);
    }
  }

  // ---------------------------------------------------------------------------
  // Properties of getSafeRegions

  /** Without protected spans the whole document is one region. */
  lemma NoProtectedSpansWholeDocument(docLength: int)
    requires docLength > 0
    ensures GetSafeRegions([], docLength) == [TextRegion(Text, 0, docLength)]
  {
  }

  lemma SortedWellFormed(spans: seq<Span>, docLength: int)
    requires WellFormedSpans(spans, docLength)
    ensures WellFormedSpans(Sorting.SortBy(spans, SpanFrom), docLength)
  {
    var sorted := Sorting.SortBy(spans, SpanFrom);
    forall i | 0 <= i < |sorted| ensures 0 <= sorted[i].from <= sorted[i].to <= docLength {
      assert sorted[i] in multiset(spans);
    }
  }

  /** The regions are non-empty, strictly ascending, disjoint and inside [0, L). */
  lemma SafeRegionsAscending(spans: seq<Span>, docLength: int)
    requires WellFormedSpans(spans, docLength)
    ensures Ascending(GetSafeRegions(spans, docLength))
    ensures forall r :: r in GetSafeRegions(spans, docLength) ==> 0 <= r.from < r.to <= docLength
  {
    var sorted := Sorting.SortBy(spans, SpanFrom);
    SortedWellFormed(spans, docLength);
    InvertAscending(sorted, 0, docLength);
    InvertBounded(sorted, 0, docLength);
  }

  /** A position is safe exactly when it is in the document and in no protected span. */
  lemma SafeRegionsAreComplement(spans: seq<Span>, docLength: int, p: int)
    requires WellFormedSpans(spans, docLength)
    ensures IsPositionSafe(p, GetSafeRegions(spans, docLength))
        <==> 0 <= p < docLength && !Covered(p, spans)
  {
    var sorted := Sorting.SortBy(spans, SpanFrom);
    SortedWellFormed(spans, docLength);
    InvertComplement(sorted, 0, docLength, p);
    CoveredPermutation(p, spans, sorted);
  }

  /** No safe region shares an offset with any protected span. */
  lemma SafeRegionsAvoidProtected(spans: seq<Span>, docLength: int)
    requires NonInverted(spans)
    ensures forall r, s :: r in GetSafeRegions(spans, docLength) && s in spans ==> r.to <= s.from || s.to <= r.from
  {
    var sorted := Sorting.SortBy(spans, SpanFrom);
    forall i | 0 <= i < |sorted| ensures sorted[i].from <= sorted[i].to {
      assert sorted[i] in multiset(spans);
    }
    InvertAvoids(sorted, 0, docLength);
    forall s | s in spans ensures s in sorted {
      assert s in multiset(sorted);
    }
  }

  /** The regions depend only on which spans are protected, not on their order. */
  lemma SafeRegionsOrderIndependent(a: seq<Span>, b: seq<Span>, docLength: int)
    requires multiset(a) == multiset(b)
    requires NonInverted(a)
    ensures GetSafeRegions(a, docLength) == GetSafeRegions(b, docLength)
  {
    var sa := Sorting.SortBy(a, SpanFrom);
    var sb := Sorting.SortBy(b, SpanFrom);
    forall i | 0 <= i < |sa| ensures sa[i].from <= sa[i].to {
      assert sa[i] in multiset(a);
    }
    InvertSortedPermutations(sa, sb, 0, docLength);
  }
}
