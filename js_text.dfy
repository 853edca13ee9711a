/**
 * The pieces of JavaScript's string semantics that the wrapper relies on:
 * the white space and line terminator classes of ECMA-262 (sections 12.2
 * and 12.3), `String.prototype.trim`, `toLowerCase` on ASCII letters,
 * `includes` and `Array.prototype.join`.
 */
module JsText {

  /** Unicode general category Zs (space separators). */
  predicate IsSpaceSeparator(c: char) {
    || c == ' '
    || c == '\U{A0}'
    || c == '\U{1680}'
    || ('\U{2000}' <= c <= '\U{200A}')
    || c == '\U{202F}'
    || c == '\U{205F}'
    || c == '\U{3000}'
  }

  /** WhiteSpace of ECMA-262 section 12.2: TAB, VT, FF, ZWNBSP and every Zs code point. */
  predicate IsWhiteSpace(c: char) {
    c == '\t' || c == '\U{B}' || c == '\U{C}' || c == '\U{FEFF}' || IsSpaceSeparator(c)
  }

  /** LineTerminator of ECMA-262 section 12.3: LF, CR, LS and PS. */
  predicate IsLineTerminator(c: char) {
    c == '\n' || c == '\r' || c == '\U{2028}' || c == '\U{2029}'
  }

  /**
   * The class `\s` of a regular expression (ECMA-262 section 22.2.2.9),
   * which is also the set of characters `String.prototype.trim` strips.
   */
  predicate IsSpace(c: char) {
    IsWhiteSpace(c) || IsLineTerminator(c)
  }

  /** Every character of s[i..j] is a `\s` character. */
  ghost predicate SpaceBetween(s: string, i: int, j: int) {
    forall k {:trigger IsSpace(s[k])} :: i <= k < j && 0 <= k < |s| ==> IsSpace(s[k])
  }

  /** Length of the longest prefix of `s` made of `\s` characters. */
  function LeadingSpaces(s: string): (n: nat)
    ensures n <= |s|
    ensures SpaceBetween(s, 0, n)
    ensures n < |s| ==> !IsSpace(s[n])
  {
    if |s| > 0 && IsSpace(s[0]) then 1 + LeadingSpaces(s[1..]) else 0
  }

  /** Length of the longest suffix of `s` made of `\s` characters. */
  function TrailingSpaces(s: string): (n: nat)
    ensures n <= |s|
    ensures SpaceBetween(s, |s| - n, |s|)
    ensures n < |s| ==> !IsSpace(s[|s| - 1 - n])
  {
    if |s| > 0 && IsSpace(s[|s| - 1]) then 1 + TrailingSpaces(s[..|s| - 1]) else 0
  }

  /** `s` has no `\s` character at either end. */
  predicate Stripped(s: string) {
    |s| == 0 || (!IsSpace(s[0]) && !IsSpace(s[|s| - 1]))
  }

  /** s[i..j] is what remains of `s` once its leading and trailing `\s` characters are cut off. */
  ghost predicate TrimBounds(s: string, i: int, j: int) {
    0 <= i <= j <= |s| && SpaceBetween(s, 0, i) && SpaceBetween(s, j, |s|) && Stripped(s[i..j])
  }

  /** `r` is `s` with its leading and trailing `\s` characters removed. */
  ghost predicate IsTrimOf(s: string, r: string) {
    exists i, j :: TrimBounds(s, i, j) && r == s[i..j]
  }

  /** `String.prototype.trim` (ECMA-262 section 22.1.3.32). */
  function Trim(s: string): (r: string)
    ensures Stripped(r)
    ensures IsTrimOf(s, r)
  {
    var i := LeadingSpaces(s);
    var rest := s[i..];
    var n := TrailingSpaces(rest);
    var r := rest[..|rest| - n];
    assert r == s[i..|s| - n];
    assert TrimBounds(s, i, |s| - n);
    r
  }

  /** Two cuts that both leave a stripped non-empty middle start at the same place. */
  lemma SameStart(s: string, i: int, j: int, i': int, j': int)
    requires TrimBounds(s, i, j) && TrimBounds(s, i', j')
    requires i < j && i' < j'
    ensures i == i'
  {
    assert !IsSpace(s[i]) by { assert s[i..j][0] == s[i]; }
    assert !IsSpace(s[i']) by { assert s[i'..j'][0] == s[i']; }
  }

  /** Two cuts that both leave a stripped non-empty middle end at the same place. */
  lemma SameEnd(s: string, i: int, j: int, i': int, j': int)
    requires TrimBounds(s, i, j) && TrimBounds(s, i', j')
    requires i < j && i' < j'
    ensures j == j'
  {
    assert !IsSpace(s[j - 1]) by { assert s[i..j][j - i - 1] == s[j - 1]; }
    assert !IsSpace(s[j' - 1]) by { assert s[i'..j'][j' - i' - 1] == s[j' - 1]; }
  }

  /** A cut that leaves nothing means that `s` is all `\s`, so no cut can leave anything. */
  lemma EmptyCut(s: string, i: int, j: int, i': int, j': int)
    requires TrimBounds(s, i, j) && TrimBounds(s, i', j')
    requires i == j
    ensures i' == j'
  {
    if i' < j' {
      assert false;  // s[i'] would be both cut off as `\s` and the non-`\s` start of the middle
    }
  }

  /** `Trim` is the only function meeting its contract: the trimmed form of a string is unique. */
  lemma {:induction false} TrimUnique(s: string, r: string)
    requires IsTrimOf(s, r)
    ensures r == Trim(s)
  {
    var i, j :| TrimBounds(s, i, j) && r == s[i..j];
    var t := Trim(s);
    var i', j' :| TrimBounds(s, i', j') && t == s[i'..j'];
    if i == j {
      EmptyCut(s, i, j, i', j');
    } else if i' == j' {
      EmptyCut(s, i', j', i, j);
    } else {
      SameStart(s, i, j, i', j');
      SameEnd(s, i, j, i', j');
    }
  }

  /** Trimming leaves nothing exactly when the whole string is `\s`. */
  lemma TrimEmptyIffAllSpace(s: string)
    ensures Trim(s) == "" <==> SpaceBetween(s, 0, |s|)
  {
    var r := Trim(s);
    var i, j :| TrimBounds(s, i, j) && r == s[i..j];
    if SpaceBetween(s, 0, |s|) {
      assert i == j;
    } else {
      var k :| 0 <= k < |s| && !IsSpace(s[k]);
      assert i <= k < j;
    }
  }

  /** Trimming twice is trimming once. */
  lemma TrimIdempotent(s: string)
    ensures Trim(Trim(s)) == Trim(s)
  {
    var t := Trim(s);
    assert t[0..|t|] == t;
    assert TrimBounds(t, 0, |t|);
    TrimUnique(t, t);
  }

  /** ASCII `toLowerCase` on one character: A-Z become a-z, everything else is kept. */
  function LowerChar(c: char): (d: char)
    ensures ('A' <= c <= 'Z') ==> d as int == c as int + 32
    ensures !('A' <= c <= 'Z') ==> d == c
  {
    if 'A' <= c <= 'Z' then (c as int + 32) as char else c
  }

  /** `String.prototype.toLowerCase`, restricted to ASCII letters. */
  function Lower(s: string): (r: string)
    ensures |r| == |s|
    ensures forall i :: 0 <= i < |s| ==> r[i] == LowerChar(s[i])
  {
    seq(|s|, i requires 0 <= i < |s| => LowerChar(s[i]))
  }

  lemma LowerConcat(a: string, b: string)
    ensures Lower(a + b) == Lower(a) + Lower(b)
  {
  }

  /** `String.prototype.includes`: `w` occurs somewhere in `s`. */
  predicate Includes(s: string, w: string) {
    exists i :: 0 <= i <= |s| - |w| && OccursAt(s, w, i)
  }

  /** `w` occurs in `s` starting at index `i`. */
  predicate OccursAt(s: string, w: string, i: int) {
    0 <= i <= |s| - |w| && s[i..i + |w|] == w
  }

  /** An occurrence in the middle part is an occurrence in the whole. */
  lemma IncludesInfix(x: string, m: string, y: string, w: string)
    requires Includes(m, w)
    ensures Includes(x + m + y, w)
  {
    var i :| 0 <= i <= |m| - |w| && OccursAt(m, w, i);
    assert OccursAt(x + m + y, w, |x| + i) by {
      assert (x + m + y)[|x| + i..|x| + i + |w|] == m[i..i + |w|];
    }
  }

  /**
   * An occurrence of a word in x + [c] + y lies in x or in y when the word
   * does not contain c.
   */
  lemma {:induction false} IncludesAcross(x: string, c: char, y: string, w: string)
    requires c !in w
    requires Includes(x + [c] + y, w)
    ensures Includes(x, w) || Includes(y, w)
  {
    var s := x + [c] + y;
    var i :| 0 <= i <= |s| - |w| && OccursAt(s, w, i);
    assert forall k :: i <= k < i + |w| ==> s[k] == w[k - i];
    assert s[|x|] == c;
    if i + |w| <= |x| {
      assert OccursAt(x, w, i) by { assert x[i..i + |w|] == s[i..i + |w|]; }
    } else if i > |x| {
      assert OccursAt(y, w, i - |x| - 1) by { assert y[i - |x| - 1..i - |x| - 1 + |w|] == s[i..i + |w|]; }
    } else {
      assert false;  // the occurrence would cover s[|x|] == c, which is not in w
    }
  }

  /** `Array.prototype.join` over strings. */
  function Join(parts: seq<string>, sep: string): (r: string)
    ensures |parts| == 1 ==> r == parts[0]
    ensures |parts| == 0 ==> r == ""
  {
    if |parts| == 0 then ""
    else if |parts| == 1 then parts[0]
    else parts[0] + sep + Join(parts[1..], sep)
  }
}
