/**
 Character-level notions shared by the scanner and the validator: how many
 backslashes immediately precede a position (which decides whether the
 position is escaped), and JavaScript's `String.prototype.trim`.
 */
module Text {

  /**
   The number of consecutive backslashes immediately before offset `j`,
   not looking below offset `lo`. A position whose run is odd is the second
   half of a backslash pair (or the character a backslash escapes).
   */
  function SlashRunBefore(s: string, lo: nat, j: nat): nat
    requires lo <= j <= |s|
    decreases j
  {
    if lo < j && s[j - 1] == '\\' then 1 + SlashRunBefore(s, lo, j - 1) else 0
  }

  /** True when `s[j]` is a backslash that starts a fresh escape sequence at or after `lo`. */
  predicate Boundary(s: string, lo: nat, j: nat)
    requires lo <= j <= |s|
  {
    j < |s| && s[j] == '\\' ==> SlashRunBefore(s, lo, j) % 2 == 0
  }

  lemma RunAfterBackslash(s: string, lo: nat, j: nat)
    requires lo <= j < |s| && s[j] == '\\'
    ensures SlashRunBefore(s, lo, j + 1) == SlashRunBefore(s, lo, j) + 1
  {
  }

  lemma RunAfterOther(s: string, lo: nat, j: nat)
    requires lo <= j < |s| && s[j] != '\\'
    ensures SlashRunBefore(s, lo, j + 1) == 0
  {
  }

  /** The characters JavaScript's `trim` removes: WhiteSpace and LineTerminator. */
  predicate IsJsWhitespace(ch: char) {
    || ch == '\t' || ch == '\n' || ch == '\U{B}' || ch == '\U{C}' || ch == '\r' || ch == ' '
    || ch == '\U{A0}' || ch == '\U{1680}' || ('\U{2000}' <= ch <= '\U{200A}')
    || ch == '\U{2028}' || ch == '\U{2029}' || ch == '\U{202F}' || ch == '\U{205F}'
    || ch == '\U{3000}' || ch == '\U{FEFF}'
  }

  /** Every character of `s` is whitespace. */
  predicate Blank(s: string) {
    forall i :: 0 <= i < |s| ==> IsJsWhitespace(s[i])
  }

  function TrimStart(s: string): (r: string)
    ensures |r| <= |s| && r == s[|s| - |r|..]
    ensures |r| > 0 ==> !IsJsWhitespace(r[0])
    ensures Blank(s[..|s| - |r|])
  {
    if |s| > 0 && IsJsWhitespace(s[0]) then
      var r := TrimStart(s[1..]);
      assert s[1..][..|s[1..]| - |r|] == s[1..|s| - |r|];
      r
    else s
  }

  function TrimEnd(s: string): (r: string)
    ensures |r| <= |s| && r == s[..|r|]
    ensures |r| > 0 ==> !IsJsWhitespace(r[|r| - 1])
    ensures Blank(s[|r|..])
  {
    if |s| > 0 && IsJsWhitespace(s[|s| - 1]) then
      var r := TrimEnd(s[..|s| - 1]);
      assert s[..|s| - 1][|r|..] == s[|r|..|s| - 1];
      r
    else s
  }

  /** JavaScript's `trim`: drop leading and trailing whitespace. */
  function Trim(s: string): (r: string)
    ensures |r| > 0 ==> !IsJsWhitespace(r[0]) && !IsJsWhitespace(r[|r| - 1])
    ensures exists a :: TrimmedAt(s, r, a)
  {
    TrimWitness(s);
    TrimEnd(TrimStart(s))
  }

  /** `r` is `s` with the all-whitespace prefix `s[..a]` and a whitespace suffix removed. */
  predicate TrimmedAt(s: string, r: string, a: int) {
    0 <= a <= a + |r| <= |s| && r == s[a..a + |r|] && Blank(s[..a]) && Blank(s[a + |r|..])
  }

  lemma TrimWitness(s: string)
    ensures var r := TrimEnd(TrimStart(s));
      && TrimmedAt(s, r, |s| - |TrimStart(s)|)
      && (|r| > 0 ==> !IsJsWhitespace(r[0]))
  {
    var t := TrimStart(s);
    var r := TrimEnd(t);
    TrimCompose(s, t, r);
    if |r| > 0 {
      assert r[0] == t[0];
    }
  }

  /** Dropping a blank prefix and then a blank suffix leaves a trimmed middle part. */
  lemma TrimCompose(s: string, t: string, r: string)
    requires |t| <= |s| && t == s[|s| - |t|..] && Blank(s[..|s| - |t|])
    requires |r| <= |t| && r == t[..|r|] && Blank(t[|r|..])
    ensures TrimmedAt(s, r, |s| - |t|)
  {
    var a := |s| - |t|;
    assert s[a..][..|r|] == s[a..a + |r|];
    assert s[a..][|r|..] == s[a + |r|..];
  }

  /** Trimming leaves nothing exactly when every character is whitespace. */
  lemma TrimEmptyIffBlank(s: string)
    ensures |Trim(s)| == 0 <==> Blank(s)
  {
    var t := TrimStart(s);
    if |Trim(s)| == 0 {
      assert Blank(t[0..]);
      assert s[..|s| - |t|] == s;
    }
  }
}
