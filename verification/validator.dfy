/**
 The structural check run on the content of each delimiter: balance of braces,
 brackets and parentheses (skipping the character after every backslash) and
 emptiness after trimming. Only unbalanced braces or brackets make the content
 invalid; the other two diagnostics are warnings.
 */
module Validator {
  import opened Types
  import opened Text

  // ---------------------------------------------------------------------------
  // Reference definition of balance

  /**
   The scan visits offset `i` when the backslashes immediately before it pair
   up: a backslash consumes the character after it, so a visited backslash
   makes the next offset a skipped one.
   */
  predicate Live(s: string, i: nat)
    requires i <= |s|
  {
    SlashRunBefore(s, 0, i) % 2 == 0
  }

  /** A visited occurrence of the character `ch`: an opener or a closer. */
  predicate Visits(s: string, ch: char, i: nat)
    requires i < |s|
  {
    Live(s, i) && s[i] == ch
  }

  /** How offset `i` changes the nesting depth. */
  function Contribution(s: string, o: char, c: char, i: nat): int
    requires i < |s|
  {
    if Visits(s, o, i) then 1 else if Visits(s, c, i) then -1 else 0
  }

  /** Visited openers minus visited closers in `s[..n]`. */
  function Depth(s: string, o: char, c: char, n: nat): int
    requires n <= |s|
  {
    if n == 0 then 0 else Depth(s, o, c, n - 1) + Contribution(s, o, c, n - 1)
  }

  /** No prefix of `s[..n]` closes more than it opened. */
  predicate NonNegativeUpTo(s: string, o: char, c: char, n: nat)
    requires n <= |s|
  {
    forall m :: 0 <= m <= n ==> Depth(s, o, c, m) >= 0
  }

  /** Every visited closer has an earlier opener and every opener is closed. */
  predicate WellNested(s: string, o: char, c: char) {
    NonNegativeUpTo(s, o, c, |s|) && Depth(s, o, c, |s|) == 0
  }

  /** `p` is the closer at which the depth first drops below zero. */
  predicate FirstUnderflow(s: string, o: char, c: char, p: nat) {
    p < |s| && Depth(s, o, c, p + 1) < 0 && NonNegativeUpTo(s, o, c, p)
  }

  /** `p` is the last opener in `s[..n]` entered at depth `l`. */
  predicate LastOpenerAtLevel(s: string, o: char, p: nat, l: int, n: nat, c: char)
    requires n <= |s|
  {
    && p < n
    && Visits(s, o, p)
    && Depth(s, o, c, p) == l
    && forall q :: p < q < n && Visits(s, o, q) ==> Depth(s, o, c, q) != l
  }

  // ---------------------------------------------------------------------------
  // The scan

  datatype Balance = Balanced | Unbalanced(index: nat)

  /**
   The open-index stack at offset `n` holds, for each depth below the current
   one, the last opener that entered that depth.
   */
  predicate StackInv(s: string, o: char, c: char, n: nat, stack: seq<nat>)
    requires n <= |s|
  {
    && |stack| == Depth(s, o, c, n)
    && forall l :: 0 <= l < |stack| ==> LastOpenerAtLevel(s, o, stack[l], l, n, c)
  }

  predicate Delimiters(o: char, c: char) {
    o != c && o != '\\' && c != '\\'
  }

  lemma LiveAfterOther(s: string, i: nat)
    requires i < |s| && s[i] != '\\'
    ensures Live(s, i + 1)
  {
    RunAfterOther(s, 0, i);
  }

  /** A visited backslash hides the next offset and makes the one after visited. */
  lemma LiveAfterBackslash(s: string, i: nat)
    requires i < |s| && Live(s, i) && s[i] == '\\'
    ensures i + 1 < |s| ==> !Live(s, i + 1)
    ensures i + 2 <= |s| ==> Live(s, i + 2)
  {
    RunAfterBackslash(s, 0, i);
    if i + 2 <= |s| {
      if s[i + 1] == '\\' {
        RunAfterBackslash(s, 0, i + 1);
      } else {
        RunAfterOther(s, 0, i + 1);
      }
    }
  }

  /** Visiting an opener pushes its offset and raises the depth by one. */
  lemma PushStep(s: string, o: char, c: char, i: nat, stack: seq<nat>)
    requires Delimiters(o, c) && i < |s| && Live(s, i) && s[i] == o
    requires NonNegativeUpTo(s, o, c, i) && StackInv(s, o, c, i, stack)
    ensures i + 1 < |s| ==> Live(s, i + 1)
    ensures NonNegativeUpTo(s, o, c, i + 1) && StackInv(s, o, c, i + 1, stack + [i])
  {
    LiveAfterOther(s, i);
    assert Depth(s, o, c, i + 1) == |stack| + 1;
    var st := stack + [i];
    forall l | 0 <= l < |st| ensures LastOpenerAtLevel(s, o, st[l], l, i + 1, c) {
      if l < |stack| {
        assert st[l] == stack[l] && LastOpenerAtLevel(s, o, stack[l], l, i, c);
      }
    }
  }

  /** Visiting a closer with a non-empty stack pops it and lowers the depth by one. */
  lemma PopStep(s: string, o: char, c: char, i: nat, stack: seq<nat>)
    requires Delimiters(o, c) && i < |s| && Live(s, i) && s[i] == c && |stack| > 0
    requires NonNegativeUpTo(s, o, c, i) && StackInv(s, o, c, i, stack)
    ensures i + 1 < |s| ==> Live(s, i + 1)
    ensures NonNegativeUpTo(s, o, c, i + 1) && StackInv(s, o, c, i + 1, stack[..|stack| - 1])
  {
    LiveAfterOther(s, i);
    assert Depth(s, o, c, i + 1) == |stack| - 1;
    var st := stack[..|stack| - 1];
    forall l | 0 <= l < |st| ensures LastOpenerAtLevel(s, o, st[l], l, i + 1, c) {
      assert st[l] == stack[l] && LastOpenerAtLevel(s, o, stack[l], l, i, c);
    }
  }

  /** Visiting a closer with an empty stack is the first underflow. */
  lemma StrayCloserStep(s: string, o: char, c: char, i: nat, stack: seq<nat>)
    requires Delimiters(o, c) && i < |s| && Live(s, i) && s[i] == c && |stack| == 0
    requires NonNegativeUpTo(s, o, c, i) && StackInv(s, o, c, i, stack)
    ensures FirstUnderflow(s, o, c, i) && !NonNegativeUpTo(s, o, c, |s|)
  {
    assert Depth(s, o, c, i + 1) == -1;
  }

  /** Any other visited character leaves depth and stack alone. */
  lemma PassStep(s: string, o: char, c: char, i: nat, stack: seq<nat>)
    requires Delimiters(o, c) && i < |s| && Live(s, i)
    requires s[i] != '\\' && s[i] != o && s[i] != c
    requires NonNegativeUpTo(s, o, c, i) && StackInv(s, o, c, i, stack)
    ensures i + 1 < |s| ==> Live(s, i + 1)
    ensures NonNegativeUpTo(s, o, c, i + 1) && StackInv(s, o, c, i + 1, stack)
  {
    LiveAfterOther(s, i);
    assert Depth(s, o, c, i + 1) == |stack|;
    forall l | 0 <= l < |stack| ensures LastOpenerAtLevel(s, o, stack[l], l, i + 1, c) {
      assert LastOpenerAtLevel(s, o, stack[l], l, i, c);
    }
  }

  /** A visited backslash and the character it escapes leave depth and stack alone. */
  lemma SkipStep(s: string, o: char, c: char, i: nat, stack: seq<nat>)
    requires Delimiters(o, c) && i < |s| && Live(s, i) && s[i] == '\\'
    requires NonNegativeUpTo(s, o, c, i) && StackInv(s, o, c, i, stack)
    ensures var next := if i + 2 <= |s| then i + 2 else |s|;
      && (next < |s| ==> Live(s, next))
      && NonNegativeUpTo(s, o, c, next) && StackInv(s, o, c, next, stack)
  {
    LiveAfterBackslash(s, i);
    var next := if i + 2 <= |s| then i + 2 else |s|;
    assert Depth(s, o, c, i + 1) == Depth(s, o, c, i);
    assert Depth(s, o, c, next) == Depth(s, o, c, i);
    forall l | 0 <= l < |stack| ensures LastOpenerAtLevel(s, o, stack[l], l, next, c) {
      assert LastOpenerAtLevel(s, o, stack[l], l, i, c);
    }
  }

  /**
   The `checkBalance` loop from offset `i` with the open-index stack `stack`:
   skip two on a backslash, push an opener, pop at a closer (or report the
   unexpected closer), and at the end report the innermost unclosed opener.
   */
  function CheckFrom(s: string, o: char, c: char, i: nat, stack: seq<nat>): (r: Balance)
    requires Delimiters(o, c)
    requires i <= |s| && (i < |s| ==> Live(s, i))
    requires NonNegativeUpTo(s, o, c, i) && StackInv(s, o, c, i, stack)
    ensures r.Balanced? <==> WellNested(s, o, c)
    ensures !NonNegativeUpTo(s, o, c, |s|) ==> r.Unbalanced? && FirstUnderflow(s, o, c, r.index)
    ensures NonNegativeUpTo(s, o, c, |s|) && Depth(s, o, c, |s|) != 0 ==>
      r.Unbalanced? && LastOpenerAtLevel(s, o, r.index, Depth(s, o, c, |s|) - 1, |s|, c)
    decreases |s| - i
  {
    if i == |s| then
      if |stack| > 0 then Unbalanced(stack[|stack| - 1]) else Balanced
    else if s[i] == '\\' then
      SkipStep(s, o, c, i, stack);
      CheckFrom(s, o, c, if i + 2 <= |s| then i + 2 else |s|, stack)
    else if s[i] == o then
      PushStep(s, o, c, i, stack);
      CheckFrom(s, o, c, i + 1, stack + [i])
    else if s[i] == c then
      if |stack| == 0 then
        StrayCloserStep(s, o, c, i, stack);
        Unbalanced(i)
      else
        PopStep(s, o, c, i, stack);
        CheckFrom(s, o, c, i + 1, stack[..|stack| - 1])
    else
      PassStep(s, o, c, i, stack);
      CheckFrom(s, o, c, i + 1, stack)
  }

  /** `checkBalance`: scan `s` from the start with an empty stack. */
  function CheckBalance(s: string, o: char, c: char): (r: Balance)
    requires Delimiters(o, c)
    ensures r.Balanced? <==> WellNested(s, o, c)
    ensures r.Unbalanced? ==> r.index < |s|
    ensures !NonNegativeUpTo(s, o, c, |s|) ==> r.Unbalanced? && FirstUnderflow(s, o, c, r.index)
    ensures NonNegativeUpTo(s, o, c, |s|) && Depth(s, o, c, |s|) != 0 ==>
      r.Unbalanced? && LastOpenerAtLevel(s, o, r.index, Depth(s, o, c, |s|) - 1, |s|, c)
    ensures !NonNegativeUpTo(s, o, c, |s|) ==> Visits(s, c, r.index) && Depth(s, o, c, r.index) == 0
    ensures NonNegativeUpTo(s, o, c, |s|) && Depth(s, o, c, |s|) != 0 ==>
      forall m :: r.index < m <= |s| ==> Depth(s, o, c, m) > Depth(s, o, c, r.index)
  {
    var r := CheckFrom(s, o, c, 0, []);
    if !NonNegativeUpTo(s, o, c, |s|) then
      UnderflowAtCloser(s, o, c, r.index);
      r
    else if Depth(s, o, c, |s|) != 0 then
      UnclosedNeverClosed(s, o, c, r.index);
      r
    else r
  }

  // ---------------------------------------------------------------------------
  // What the reported index means

  lemma DepthStep(s: string, o: char, c: char, n: nat)
    requires n < |s|
    ensures Depth(s, o, c, n + 1) - Depth(s, o, c, n) in {-1, 0, 1}
    ensures Depth(s, o, c, n + 1) > Depth(s, o, c, n) <==> Visits(s, o, n)
  {
  }

  /** Wherever the depth climbs past `l`, an opener entered depth `l` on the way. */
  lemma {:induction false} RiseHasOpener(s: string, o: char, c: char, a: nat, b: nat, l: int)
    requires Delimiters(o, c)
    requires a < b <= |s| && Depth(s, o, c, a) <= l < Depth(s, o, c, b)
    ensures exists q :: a <= q < b && Visits(s, o, q) && Depth(s, o, c, q) == l
  {
    DepthStep(s, o, c, b - 1);
    if Depth(s, o, c, b - 1) > l {
      RiseHasOpener(s, o, c, a, b - 1, l);
    } else {
      assert Visits(s, o, b - 1) && Depth(s, o, c, b - 1) == l;
    }
  }

  /**
   The opener reported for unclosed content really is never closed: after it
   the depth stays above the depth at which it was opened.
   */
  lemma UnclosedNeverClosed(s: string, o: char, c: char, p: nat)
    requires Delimiters(o, c)
    requires LastOpenerAtLevel(s, o, p, Depth(s, o, c, |s|) - 1, |s|, c)
    ensures forall m :: p < m <= |s| ==> Depth(s, o, c, m) > Depth(s, o, c, p)
  {
    var l := Depth(s, o, c, |s|) - 1;
    forall m | p < m <= |s| ensures Depth(s, o, c, m) > l {
      if Depth(s, o, c, m) <= l {
        DepthStep(s, o, c, p);
        RiseHasOpener(s, o, c, m, |s|, l);
        assert false;
      }
    }
  }

  /** The reported unexpected closer is a visited closer met at depth zero. */
  lemma UnderflowAtCloser(s: string, o: char, c: char, p: nat)
    requires FirstUnderflow(s, o, c, p)
    ensures Visits(s, c, p) && Depth(s, o, c, p) == 0
  {
    assert Depth(s, o, c, p) >= 0;
  }

  // ---------------------------------------------------------------------------
  // validate

  function Message(kind: ErrorKind): string {
    match kind
    case UnbalancedBraces => "Unbalanced braces {}"
    case UnbalancedBrackets => "Unbalanced brackets []"
    case UnbalancedParentheses => "Unbalanced parentheses ()"
    case EmptyContent => "Math content is empty"
  }

  /** The four messages are distinct, so a message determines its kind. */
  lemma MessageIdentifiesKind(a: ErrorKind, b: ErrorKind)
    ensures Message(a) == Message(b) <==> a == b
  {
    if a != b {
      assert |Message(a)| != |Message(b)|;
    }
  }

  /** The kinds that make content invalid. */
  predicate IsStrict(kind: ErrorKind) {
    kind.UnbalancedBraces? || kind.UnbalancedBrackets?
  }

  /** The kinds of `errors`, in order. */
  function Kinds(errors: seq<ValidationError>): (ks: seq<ErrorKind>)
    ensures |ks| == |errors|
    ensures forall i :: 0 <= i < |errors| ==> ks[i] == errors[i].kind
  {
    if errors == [] then [] else [errors[0].kind] + Kinds(errors[1..])
  }

  predicate HasKind(errors: seq<ValidationError>, kind: ErrorKind) {
    kind in Kinds(errors)
  }

  /** `[kind]` when `fails`, nothing otherwise. */
  function KindIf(fails: bool, kind: ErrorKind): seq<ErrorKind> {
    if fails then [kind] else []
  }

  /** The diagnostics `validate` should report, as a list of kinds in report order. */
  function ExpectedKinds(content: string): seq<ErrorKind> {
    KindIf(!WellNested(content, '{', '}'), UnbalancedBraces)
    + KindIf(!WellNested(content, '[', ']'), UnbalancedBrackets)
    + KindIf(!WellNested(content, '(', ')'), UnbalancedParentheses)
    + KindIf(Blank(content), EmptyContent)
  }

  /**
   A diagnostic carries its kind's message, and a position inside content of
   length `n` exactly when it is a balance diagnostic.
   */
  predicate Reported(e: ValidationError, n: nat) {
    && e.message == Message(e.kind)
    && (e.position.Some? <==> !e.kind.EmptyContent?)
    && (e.position.Some? ==> e.position.value < n)
  }

  /** `e` reports the offset at which `checkBalance` of `o` and `c` failed. */
  predicate AtCheckIndex(e: ValidationError, content: string, o: char, c: char)
    requires Delimiters(o, c)
  {
    CheckBalance(content, o, c).Unbalanced? && e.position == Some(CheckBalance(content, o, c).index)
  }

  /**
   A balance diagnostic reports where the balance check of its own pair of
   characters failed; the emptiness diagnostic reports no position.
   */
  predicate PositionFromCheck(e: ValidationError, content: string) {
    match e.kind
    case UnbalancedBraces => AtCheckIndex(e, content, '{', '}')
    case UnbalancedBrackets => AtCheckIndex(e, content, '[', ']')
    case UnbalancedParentheses => AtCheckIndex(e, content, '(', ')')
    case EmptyContent => e.position == None
  }

  /** The diagnostic the balance check of `o` and `c` contributes, if any. */
  function BalanceErrors(kind: ErrorKind, content: string, o: char, c: char): (es: seq<ValidationError>)
    requires Delimiters(o, c) && !kind.EmptyContent?
    ensures Kinds(es) == KindIf(!WellNested(content, o, c), kind)
    ensures forall e :: e in es ==> e.kind == kind && Reported(e, |content|)
    ensures forall e :: e in es ==> AtCheckIndex(e, content, o, c)
  {
    match CheckBalance(content, o, c)
    case Balanced => []
    case Unbalanced(index) => [ValidationError(kind, Message(kind), Some(index))]
  }

  /** The diagnostic for content that trims to nothing, if any. */
  function EmptyErrors(empty: bool): (es: seq<ValidationError>)
    ensures Kinds(es) == KindIf(empty, EmptyContent)
    ensures forall e :: e in es ==> e == ValidationError(EmptyContent, Message(EmptyContent), None)
    ensures forall e :: e in es ==> Reported(e, 0)
  {
    if empty then [ValidationError(EmptyContent, Message(EmptyContent), None)] else []
  }

  lemma KindsConcat(a: seq<ValidationError>, b: seq<ValidationError>)
    ensures Kinds(a + b) == Kinds(a) + Kinds(b)
  {
  }

  /** Four report groups in a row: kinds concatenate and every diagnostic stays well reported. */
  lemma Concat4(a: seq<ValidationError>, b: seq<ValidationError>, c: seq<ValidationError>,
                d: seq<ValidationError>, n: nat)
    requires forall e :: e in a + b + c ==> Reported(e, n)
    requires forall e :: e in d ==> Reported(e, 0)
    ensures Kinds(a + b + c + d) == Kinds(a) + Kinds(b) + Kinds(c) + Kinds(d)
    ensures forall e :: e in a + b + c + d ==> Reported(e, n)
  {
    KindsConcat(a, b);
    KindsConcat(a + b, c);
    KindsConcat(a + b + c, d);
  }

  /** The diagnostics of `validate`, in the order it reports them. */
  function Diagnostics(content: string): (es: seq<ValidationError>)
    ensures Kinds(es) == ExpectedKinds(content)
    ensures forall e :: e in es ==> Reported(e, |content|)
    ensures forall e :: e in es ==> PositionFromCheck(e, content)
  {
    var braces := BalanceErrors(UnbalancedBraces, content, '{', '}');
    var brackets := BalanceErrors(UnbalancedBrackets, content, '[', ']');
    var parens := BalanceErrors(UnbalancedParentheses, content, '(', ')');
    var empty := EmptyErrors(|Trim(content)| == 0);
    TrimEmptyIffBlank(content);
    Concat4(braces, brackets, parens, empty, |content|);
    braces + brackets + parens + empty
  }

  /** Some diagnostic makes the content invalid. */
  predicate HasStrictError(errors: seq<ValidationError>) {
    HasKind(errors, UnbalancedBraces) || HasKind(errors, UnbalancedBrackets)
  }

  /** The strict kinds appear among the expected kinds exactly when their check fails. */
  lemma StrictKindsExpected(content: string)
    ensures UnbalancedBraces in ExpectedKinds(content) <==> !WellNested(content, '{', '}')
    ensures UnbalancedBrackets in ExpectedKinds(content) <==> !WellNested(content, '[', ']')
  {
  }

  lemma StrictKindIndex(errors: seq<ValidationError>)
    ensures HasStrictError(errors) <==> exists i :: 0 <= i < |errors| && IsStrict(errors[i].kind)
  {
    if HasStrictError(errors) {
      var ks := Kinds(errors);
      var i :| 0 <= i < |ks| && IsStrict(ks[i]);
      assert IsStrict(errors[i].kind);
    }
  }

  /** `validate`: the diagnostics, and validity unless braces or brackets are unbalanced. */
  function Validate(content: string): (r: ValidationResult)
    ensures r.errors == Diagnostics(content)
    ensures r.isValid <==> WellNested(content, '{', '}') && WellNested(content, '[', ']')
    ensures r.isValid <==> !exists i :: 0 <= i < |r.errors| && IsStrict(r.errors[i].kind)
  {
    var errors := Diagnostics(content);
    StrictKindsExpected(content);
    StrictKindIndex(errors);
    ValidationResult(!HasStrictError(errors), errors)
  }

  // ---------------------------------------------------------------------------
  // Worked examples

  /** Content whose only fault is an unbalanced brace draws exactly that diagnostic. */
  lemma OnlyBraceFault(s: string, p: nat)
    requires CheckBalance(s, '{', '}') == Unbalanced(p)
    requires WellNested(s, '[', ']') && WellNested(s, '(', ')') && !Blank(s)
    ensures Validate(s) == ValidationResult(false, [ValidationError(UnbalancedBraces, Message(UnbalancedBraces), Some(p))])
  {
    var es := Validate(s).errors;
    assert Kinds(es) == [UnbalancedBraces];
    assert PositionFromCheck(es[0], s) && Reported(es[0], |s|);
  }

  /** Content with unbalanced braces is invalid, and the brace diagnostic comes first. */
  lemma BraceFaultFirst(s: string, p: nat)
    requires CheckBalance(s, '{', '}') == Unbalanced(p)
    ensures !Validate(s).isValid
    ensures Validate(s).errors[0] == ValidationError(UnbalancedBraces, Message(UnbalancedBraces), Some(p))
  {
    var es := Validate(s).errors;
    assert Kinds(es)[0] == UnbalancedBraces;
    assert PositionFromCheck(es[0], s) && Reported(es[0], |s|);
  }

  /** Balanced, non-blank content is valid with no diagnostic. */
  lemma NoFault(s: string)
    requires WellNested(s, '{', '}') && WellNested(s, '[', ']') && WellNested(s, '(', ')') && !Blank(s)
    ensures Validate(s) == ValidationResult(true, [])
  {
    assert Kinds(Validate(s).errors) == [];
  }

  /** `x^{2` is invalid, with one diagnostic: the brace at offset 2 is never closed. */
  lemma UnclosedBraceExample()
    ensures Validate("x^{2") == ValidationResult(false, [ValidationError(UnbalancedBraces, "Unbalanced braces {}", Some(2))])
  {
    var s := "x^{2";
    assert CheckBalance(s, '{', '}') == Unbalanced(2);
    assert forall m :: 0 <= m <= 4 ==> Depth(s, '[', ']', m) == 0 && Depth(s, '(', ')', m) == 0;
    assert !IsJsWhitespace(s[0]);
    OnlyBraceFault(s, 2);
  }

  /** `x}` is invalid, and its first diagnostic is the brace at offset 1 that closes nothing. */
  lemma StrayCloseExample()
    ensures !Validate("x}").isValid
    ensures Validate("x}").errors[0] == ValidationError(UnbalancedBraces, "Unbalanced braces {}", Some(1))
  {
    assert CheckBalance("x}", '{', '}') == Unbalanced(1);
    BraceFaultFirst("x}", 1);
  }

  /** `\{ a \}`: both braces are escaped, so the content is valid with no diagnostic. */
  lemma EscapedBracesExample()
    ensures Validate("\\{ a \\}") == ValidationResult(true, [])
  {
    EscapedBracesNested();
    EscapedBracesNoOtherPairs();
    assert !IsJsWhitespace("\\{ a \\}"[0]);
    NoFault("\\{ a \\}");
  }

  lemma EscapedBracesNested()
    ensures WellNested("\\{ a \\}", '{', '}')
  {
    var s := "\\{ a \\}";
    assert !Live(s, 1) && !Live(s, 6);
    assert forall m :: 0 <= m <= 7 ==> Depth(s, '{', '}', m) == 0;
  }

  lemma EscapedBracesNoOtherPairs()
    ensures WellNested("\\{ a \\}", '[', ']') && WellNested("\\{ a \\}", '(', ')')
  {
    AbsentPairNested("\\{ a \\}", '[', ']');
    AbsentPairNested("\\{ a \\}", '(', ')');
  }

  /** Content without either character of a pair is well nested for that pair. */
  lemma AbsentPairNested(s: string, o: char, c: char)
    requires forall i :: 0 <= i < |s| ==> s[i] != o && s[i] != c
    ensures WellNested(s, o, c)
  {
    forall m | 0 <= m <= |s| ensures Depth(s, o, c, m) == 0 {
      AbsentDepthZero(s, o, c, m);
    }
  }

  lemma {:induction false} AbsentDepthZero(s: string, o: char, c: char, n: nat)
    requires n <= |s| && forall i :: 0 <= i < |s| ==> s[i] != o && s[i] != c
    ensures Depth(s, o, c, n) == 0
  {
    if n > 0 {
      AbsentDepthZero(s, o, c, n - 1);
    }
  }

  /** `(a` only draws the parenthesis warning and stays valid. */
  lemma ParenthesisWarningExample()
    ensures Validate("(a").isValid
    ensures Kinds(Validate("(a").errors) == [UnbalancedParentheses]
  {
    var s := "(a";
    AbsentPairNested(s, '{', '}');
    AbsentPairNested(s, '[', ']');
    assert Depth(s, '(', ')', 2) == 1;
    assert !IsJsWhitespace(s[0]);
  }
}
