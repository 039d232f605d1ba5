/**
 Python's `str.strip()` and `str.lower()` on strings, as the business rules
 use them to normalise breeds and target names.
 */
module Text {

  /** The code points for which Python's `str.isspace()` holds. */
  const SpaceChars: set<char> := {' ', '\t', '\n', '\U{b}', '\U{c}', '\r', '\U{1c}', '\U{1d}', '\U{1e}', '\U{1f}',
    '\U{85}', '\U{a0}', '\U{1680}', '\U{2000}', '\U{2001}', '\U{2002}', '\U{2003}', '\U{2004}', '\U{2005}',
    '\U{2006}', '\U{2007}', '\U{2008}', '\U{2009}', '\U{200a}', '\U{2028}', '\U{2029}', '\U{202f}', '\U{205f}', '\U{3000}'}

  predicate IsSpace(c: char) {
    c in SpaceChars
  }

  predicate IsUpper(c: char) {
    'A' <= c <= 'Z'
  }

  function LowerChar(c: char): char {
    if IsUpper(c) then (c as int - 'A' as int + 'a' as int) as char else c
  }

  /** Lower-casing a character yields no capital, keeps whitespace as it is and leaves non-capitals alone. */
  lemma LowerCharSpec(c: char)
    ensures !IsUpper(LowerChar(c))
    ensures IsSpace(LowerChar(c)) == IsSpace(c)
    ensures !IsUpper(c) ==> LowerChar(c) == c
  {
  }

  /** `s.lower()`, restricted to the ASCII letters. */
  function Lower(s: string): (r: string)
    ensures |r| == |s|
  {
    seq(|s|, i requires 0 <= i < |s| => LowerChar(s[i]))
  }

  /** `s.lstrip()`. */
  function TrimStart(s: string): string {
    if |s| > 0 && IsSpace(s[0]) then TrimStart(s[1..]) else s
  }

  /** `s.rstrip()`. */
  function TrimEnd(s: string): string {
    if |s| > 0 && IsSpace(s[|s| - 1]) then TrimEnd(s[..|s| - 1]) else s
  }

  /** `lstrip` drops a whitespace-only prefix and stops at the first other character. */
  lemma {:induction false} TrimStartSpec(s: string)
    ensures |TrimStart(s)| <= |s|
    ensures TrimStart(s) == s[|s| - |TrimStart(s)|..]
    ensures forall i :: 0 <= i < |s| - |TrimStart(s)| ==> IsSpace(s[i])
    ensures TrimStart(s) == [] || !IsSpace(TrimStart(s)[0])
  {
    if |s| > 0 && IsSpace(s[0]) {
      TrimStartSpec(s[1..]);
      forall i | 1 <= i < |s| - |TrimStart(s)| ensures IsSpace(s[i]) {
        assert s[i] == s[1..][i - 1];
      }
    }
  }

  /** `rstrip` drops a whitespace-only suffix and stops at the last other character. */
  lemma {:induction false} TrimEndSpec(s: string)
    ensures |TrimEnd(s)| <= |s|
    ensures TrimEnd(s) == s[..|TrimEnd(s)|]
    ensures forall i :: |TrimEnd(s)| <= i < |s| ==> IsSpace(s[i])
    ensures TrimEnd(s) == [] || !IsSpace(TrimEnd(s)[|TrimEnd(s)| - 1])
  {
    if |s| > 0 && IsSpace(s[|s| - 1]) {
      TrimEndSpec(s[..|s| - 1]);
      forall i | |TrimEnd(s)| <= i < |s| - 1 ensures IsSpace(s[i]) {
        assert s[i] == s[..|s| - 1][i];
      }
    }
  }

  /** Neither the first nor the last character is whitespace. */
  predicate NoOuterSpace(s: string) {
    s == [] || (!IsSpace(s[0]) && !IsSpace(s[|s| - 1]))
  }

  /** `s.strip()`. */
  function Trim(s: string): (r: string)
    ensures NoOuterSpace(r)
    ensures |r| <= |s|
  {
    var t := TrimStart(s);
    TrimStartSpec(s);
    TrimEndSpec(t);
    var r := TrimEnd(t);
    assert r != [] ==> r[0] == t[0];
    r
  }

  /** `s.strip().lower()`: the form in which breeds and target names are compared. */
  function Normalize(s: string): string {
    Lower(Trim(s))
  }

  /** A string that normalisation leaves alone. */
  predicate InNormalForm(s: string) {
    NoOuterSpace(s) && forall i :: 0 <= i < |s| ==> !IsUpper(s[i])
  }

  /** No lower-case ASCII letter is whitespace. */
  lemma LetterIsNotSpace(c: char)
    requires 'a' <= c <= 'z'
    ensures !IsSpace(c)
  {
  }

  /** Lower-case words separated by blanks are in normal form. */
  lemma LowerWordsAreNormal(s: string)
    requires s != [] && 'a' <= s[0] <= 'z' && 'a' <= s[|s| - 1] <= 'z'
    requires forall i :: 0 <= i < |s| ==> 'a' <= s[i] <= 'z' || s[i] == ' '
    ensures InNormalForm(s)
  {
    LetterIsNotSpace(s[0]);
    LetterIsNotSpace(s[|s| - 1]);
  }

  lemma TrimOfUntrimmable(s: string)
    requires NoOuterSpace(s)
    ensures Trim(s) == s
  {
    assert TrimStart(s) == s;
  }

  lemma {:induction false} TrimStartOfPadded(pre: string, t: string)
    requires forall i :: 0 <= i < |pre| ==> IsSpace(pre[i])
    requires t == [] || !IsSpace(t[0])
    ensures TrimStart(pre + t) == t
  {
    if pre != [] {
      assert (pre + t)[1..] == pre[1..] + t;
      TrimStartOfPadded(pre[1..], t);
    } else {
      assert pre + t == t;
    }
  }

  lemma {:induction false} TrimEndOfPadded(t: string, post: string)
    requires forall i :: 0 <= i < |post| ==> IsSpace(post[i])
    requires t == [] || !IsSpace(t[|t| - 1])
    ensures TrimEnd(t + post) == t
  {
    if post != [] {
      assert (t + post)[..|t + post| - 1] == t + post[..|post| - 1];
      TrimEndOfPadded(t, post[..|post| - 1]);
    } else {
      assert t + post == t;
    }
  }

  /** Stripping removes exactly the whitespace padding around the text. */
  lemma TrimOfPadded(pre: string, t: string, post: string)
    requires forall i :: 0 <= i < |pre| ==> IsSpace(pre[i])
    requires forall i :: 0 <= i < |post| ==> IsSpace(post[i])
    requires NoOuterSpace(t)
    requires t != []
    ensures Trim(pre + t + post) == t
  {
    var s := pre + t + post;
    assert s == pre + (t + post);
    TrimStartOfPadded(pre, t + post);
    TrimEndOfPadded(t, post);
  }

  /** A string strips to nothing exactly when every character of it is whitespace. */
  lemma TrimEmptyIffAllSpace(s: string)
    ensures Trim(s) == [] <==> forall i :: 0 <= i < |s| ==> IsSpace(s[i])
  {
    var t := TrimStart(s);
    TrimStartSpec(s);
    TrimEndSpec(t);
    if t != [] {
      assert t[0] == s[|s| - |t|];
      assert TrimEnd(t) != [];
    }
  }

  /** Stripping twice is stripping once. */
  lemma TrimIdempotent(s: string)
    ensures Trim(Trim(s)) == Trim(s)
  {
    TrimOfUntrimmable(Trim(s));
  }

  /** Lower-casing keeps the whitespace where it was, so a stripped string stays stripped. */
  lemma LowerKeepsNoOuterSpace(s: string)
    requires NoOuterSpace(s)
    ensures NoOuterSpace(Lower(s))
  {
    if s != [] {
      LowerCharSpec(s[0]);
      LowerCharSpec(s[|s| - 1]);
      assert Lower(s)[0] == LowerChar(s[0]);
      assert Lower(s)[|s| - 1] == LowerChar(s[|s| - 1]);
    }
  }

  /** Every normalised string is in normal form. */
  lemma NormalizeIsNormalForm(s: string)
    ensures InNormalForm(Normalize(s))
  {
    var t := Trim(s);
    LowerKeepsNoOuterSpace(t);
    forall i | 0 <= i < |t| ensures !IsUpper(Lower(t)[i]) {
      LowerCharSpec(t[i]);
    }
  }

  /** Normalisation leaves a string in normal form unchanged. */
  lemma NormalFormIsFixed(s: string)
    requires InNormalForm(s)
    ensures Normalize(s) == s
  {
    TrimOfUntrimmable(s);
    forall i | 0 <= i < |s| ensures Lower(s)[i] == s[i] {
      LowerCharSpec(s[i]);
    }
    assert Lower(s) == s;
  }

  /** Normalising twice is normalising once. */
  lemma NormalizeIdempotent(s: string)
    ensures Normalize(Normalize(s)) == Normalize(s)
  {
    NormalizeIsNormalForm(s);
    NormalFormIsFixed(Normalize(s));
  }

  /** Stripping before normalising changes nothing: a stored, stripped name has the key of its input. */
  lemma NormalizeOfTrim(s: string)
    ensures Normalize(Trim(s)) == Normalize(s)
  {
    TrimIdempotent(s);
  }

  /** The normalised form is empty exactly when the input is empty or whitespace only. */
  lemma NormalizeEmptyIffBlank(s: string)
    ensures Normalize(s) == [] <==> Trim(s) == []
  {
  }
}
