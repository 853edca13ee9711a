/**
 * The regular expression `/GITHUB_PROXY\s*=\s*(.+)/` and its `exec`, as the
 * backtracking matcher of ECMA-262 section 22.2 runs it: no flags, so the
 * search is unanchored, case-sensitive, and starts at index 0; every
 * quantifier is greedy; `\s` is WhiteSpace or LineTerminator and `.` is any
 * character but a LineTerminator.
 */
module ProxyPattern {
  import opened Wrappers
  import opened JsText

  /** The literal the pattern starts with. */
  const Key := "GITHUB_PROXY"

  /** No character of s[i..j] is a line terminator: `.+` can consume all of it. */
  ghost predicate DotsBetween(s: string, i: int, j: int) {
    forall k {:trigger IsLineTerminator(s[k])} :: i <= k < j && 0 <= k < |s| ==> !IsLineTerminator(s[k])
  }

  /**
   * The pattern matches `s` from index `p`, with its `=` at index `a` and
   * capture group 1, `(.+)`, spanning s[k..e].
   */
  ghost predicate Matches(s: string, p: int, a: int, k: int, e: int) {
    && 0 <= p && p + |Key| <= a < k < e <= |s|
    && s[p..p + |Key|] == Key
    && SpaceBetween(s, p + |Key|, a) && s[a] == '='
    && SpaceBetween(s, a + 1, k) && DotsBetween(s, k, e)
  }

  /**
   * Of the matches from index `p`, (a, k, e) is the one backtracking reaches
   * first: every quantifier is greedy and tries its longest repetition
   * first, so the first success is the lexicographically greatest tuple.
   */
  ghost predicate FirstChoice(s: string, p: int, a: int, k: int, e: int) {
    && Matches(s, p, a, k, e)
    && forall a', k', e' :: Matches(s, p, a', k', e') ==>
         a' < a || (a' == a && (k' < k || (k' == k && e' <= e)))
  }

  /** The result of a successful `exec`: the match index and the bounds of capture group 1. */
  datatype Span = Span(index: nat, start: nat, end: nat)

  /** Where the greedy `\s*` starting at index `i` stops. */
  function SpaceRunEnd(s: string, i: nat): (j: nat)
    requires i <= |s|
    ensures i <= j <= |s|
    ensures SpaceBetween(s, i, j)
    ensures j < |s| ==> !IsSpace(s[j])
    decreases |s| - i
  {
    if i < |s| && IsSpace(s[i]) then SpaceRunEnd(s, i + 1) else i
  }

  /** Where the greedy `.+` starting at index `i` stops. */
  function DotRunEnd(s: string, i: nat): (j: nat)
    requires i <= |s|
    ensures i <= j <= |s|
    ensures DotsBetween(s, i, j)
    ensures j < |s| ==> IsLineTerminator(s[j])
    decreases |s| - i
  {
    if i < |s| && !IsLineTerminator(s[i]) then DotRunEnd(s, i + 1) else i
  }

  /**
   * The greatest index in [lo, hi) whose character `.` accepts: where `.+`
   * can start once a `\s*` that ran to index `hi` backtracks.
   */
  function LastDot(s: string, lo: nat, hi: nat): (r: Option<nat>)
    requires lo <= hi <= |s|
    ensures r.None? ==> forall t {:trigger IsLineTerminator(s[t])} :: lo <= t < hi ==> IsLineTerminator(s[t])
    ensures r.Some? ==> lo <= r.value < hi && !IsLineTerminator(s[r.value])
    ensures r.Some? ==> forall t {:trigger IsLineTerminator(s[t])} :: r.value < t < hi ==> IsLineTerminator(s[t])
    decreases hi - lo
  {
    if lo == hi then None
    else if !IsLineTerminator(s[hi - 1]) then Some(hi - 1)
    else LastDot(s, lo, hi - 1)
  }

  /** The match attempted from index `p`, as the backtracking matcher finds it. */
  function MatchAt(s: string, p: nat): (r: Option<Span>)
    ensures r.Some? ==> r.value.index == p && p + |Key| < r.value.start < r.value.end <= |s|
  {
    if p + |Key| > |s| || s[p..p + |Key|] != Key then None
    else
      var a := SpaceRunEnd(s, p + |Key|);
      if a == |s| || s[a] != '=' then None
      else
        var b := SpaceRunEnd(s, a + 1);
        if b < |s| then
          Some(Span(p, b, DotRunEnd(s, b)))
        else
          // `\s*` ran to the end of the input: `.+` needs one more character, so
          // `\s*` gives back characters until one that `.` accepts is freed
          match LastDot(s, a + 1, b)
          case None => None
          case Some(k) => Some(Span(p, k, DotRunEnd(s, k)))
  }

  /**
   * The leftmost successful attempt among start positions 0 .. n-1: the loop
   * of `RegExp.prototype.exec` that tries index 0, 1, 2, … in turn and stops
   * at the first attempt that succeeds.
   */
  function LeftmostBelow(s: string, n: nat): (r: Option<Span>)
    ensures r.Some? ==> r.value.index < n
  {
    if n == 0 then None
    else
      match LeftmostBelow(s, n - 1)
      case Some(m) => Some(m)
      case None => MatchAt(s, n - 1)
  }

  /** `/GITHUB_PROXY\s*=\s*(.+)/.exec(s)`: a non-global pattern tries every start position up to |s|. */
  function Exec(s: string): (r: Option<Span>)
    ensures r.Some? ==> r.value.start < r.value.end <= |s|
  {
    LeftmostBounds(s, |s| + 1);
    LeftmostBelow(s, |s| + 1)
  }

  /** Every attempt the search can report has a non-empty group inside `s`. */
  lemma {:induction false} LeftmostBounds(s: string, n: nat)
    ensures LeftmostBelow(s, n).Some? ==> LeftmostBelow(s, n).value.start < LeftmostBelow(s, n).value.end <= |s|
  {
    if n > 0 {
      LeftmostBounds(s, n - 1);
    }
  }

  /** Capture group 1 of the match, `proxyMatch[1]`, or None when there is no match. */
  function Capture(s: string): Option<string> {
    match Exec(s)
    case None => None
    case Some(m) => Some(s[m.start..m.end])
  }

  lemma LineTerminatorIsSpace(c: char)
    ensures IsLineTerminator(c) ==> IsSpace(c)
  {
  }

  /**
   * Every match from `p` puts its `=` where the `\s*` after the key stops,
   * starts its group no later than where the `\s*` after `=` stops, and
   * starts it with a character that `.` accepts.
   */
  lemma MatchShape(s: string, p: nat, a: int, k: int, e: int)
    requires Matches(s, p, a, k, e)
    ensures a == SpaceRunEnd(s, p + |Key|)
    ensures k <= SpaceRunEnd(s, a + 1)
    ensures k < |s| && !IsLineTerminator(s[k])
  {
    assert !IsSpace(s[a]);
  }

  /** A successful attempt from `p` returns the match that backtracking reaches first. */
  lemma {:induction false} MatchAtSound(s: string, p: nat)
    requires MatchAt(s, p).Some?
    ensures var m := MatchAt(s, p).value;
      m.index == p && p + |Key| <= |s| && FirstChoice(s, p, SpaceRunEnd(s, p + |Key|), m.start, m.end)
  {
    var m := MatchAt(s, p).value;
    var a := SpaceRunEnd(s, p + |Key|);
    var b := SpaceRunEnd(s, a + 1);
    forall a', k', e' | Matches(s, p, a', k', e') ensures a' == a && k' <= b && !IsLineTerminator(s[k']) {
      MatchShape(s, p, a', k', e');
    }
    if b < |s| {
      LineTerminatorIsSpace(s[b]);
    }
    assert Matches(s, p, a, m.start, m.end);
  }

  /** A failed attempt from `p` means that no match starts at `p`. */
  lemma {:induction false} MatchAtComplete(s: string, p: nat)
    requires MatchAt(s, p).None?
    ensures forall a, k, e :: !Matches(s, p, a, k, e)
  {
    forall a, k, e | Matches(s, p, a, k, e) ensures false {
      MatchShape(s, p, a, k, e);
      assert false;
    }
  }

  /** The attempt from `p` succeeds exactly when some match starts at `p`, and then it is the first choice. */
  lemma MatchAtCorrect(s: string, p: nat)
    ensures MatchAt(s, p).None? <==> forall a, k, e :: !Matches(s, p, a, k, e)
    ensures MatchAt(s, p).Some? ==>
      var m := MatchAt(s, p).value;
      m.index == p && p + |Key| <= |s| && FirstChoice(s, p, SpaceRunEnd(s, p + |Key|), m.start, m.end)
  {
    if MatchAt(s, p).Some? {
      MatchAtSound(s, p);
    } else {
      MatchAtComplete(s, p);
    }
  }

  /** The attempts from every start position in [p, q) fail. */
  ghost predicate AttemptsFail(s: string, p: nat, q: nat)
    decreases q
  {
    q <= p || (MatchAt(s, q - 1).None? && AttemptsFail(s, p, q - 1))
  }

  /** When no attempt below `n` succeeds, every one of them failed. */
  lemma {:induction false} LeftmostNone(s: string, n: nat)
    requires LeftmostBelow(s, n).None?
    ensures AttemptsFail(s, 0, n)
  {
    if n > 0 {
      LeftmostNone(s, n - 1);
    }
  }

  /** The search below `n` reports the attempt at the first start position where an attempt succeeds. */
  lemma {:induction false} LeftmostSome(s: string, n: nat)
    requires LeftmostBelow(s, n).Some?
    ensures var m := LeftmostBelow(s, n).value;
      && m.index < n
      && MatchAt(s, m.index) == LeftmostBelow(s, n)
      && AttemptsFail(s, 0, m.index)
  {
    if LeftmostBelow(s, n - 1).Some? {
      LeftmostSome(s, n - 1);
    } else {
      LeftmostNone(s, n - 1);
    }
  }

  /** Once every attempt below `i` has failed and the one at `i` succeeds, the search below any n > i reports it. */
  lemma {:induction false} LeftmostAfterFailures(s: string, i: nat, n: nat)
    requires AttemptsFail(s, 0, i) && MatchAt(s, i).Some? && i < n
    ensures LeftmostBelow(s, n) == MatchAt(s, i)
  {
    if n - 1 == i {
      FailuresLeaveNothing(s, i);
    } else {
      LeftmostAfterFailures(s, i, n - 1);
    }
  }

  /** When every attempt below `n` fails, the search below `n` finds nothing. */
  lemma {:induction false} FailuresLeaveNothing(s: string, n: nat)
    requires AttemptsFail(s, 0, n)
    ensures LeftmostBelow(s, n).None?
  {
    if n > 0 {
      FailuresLeaveNothing(s, n - 1);
    }
  }

  /** What `exec` reports is the attempt from the index it reports. */
  lemma ExecIsAttempt(s: string)
    requires Exec(s).Some?
    ensures MatchAt(s, Exec(s).value.index) == Exec(s)
  {
    LeftmostSome(s, |s| + 1);
  }

  /** `exec` reports the attempt at `i` when every attempt before `i` fails and the one at `i` succeeds. */
  lemma {:induction false} ExecAfterFailures(s: string, i: nat)
    requires forall q :: 0 <= q < i ==> MatchAt(s, q).None?
    requires MatchAt(s, i).Some?
    ensures Exec(s) == MatchAt(s, i)
  {
    AttemptsFailFromEach(s, i);
    LeftmostAfterFailures(s, i, |s| + 1);
  }

  /** Failing attempts at each position below `n` are failing attempts below `n`. */
  lemma {:induction false} AttemptsFailFromEach(s: string, n: nat)
    requires forall q :: 0 <= q < n ==> MatchAt(s, q).None?
    ensures AttemptsFail(s, 0, n)
  {
    if n > 0 {
      AttemptsFailFromEach(s, n - 1);
    }
  }

  /** Where every attempt fails, no match starts. */
  lemma {:induction false} NoMatchesWhereAttemptsFail(s: string, p: nat, q: nat)
    requires AttemptsFail(s, p, q)
    ensures forall r, a, k, e :: p <= r < q ==> !Matches(s, r, a, k, e)
  {
    if p < q {
      MatchAtComplete(s, q - 1);
      NoMatchesWhereAttemptsFail(s, p, q - 1);
    }
  }

  /**
   * `exec` on `s` fails exactly when the pattern matches nowhere in `s`;
   * otherwise it reports the leftmost index where the pattern matches, with
   * what the attempt there returns (by `MatchAtCorrect`, the match that
   * backtracking reaches first).
   */
  lemma ExecCorrect(s: string)
    ensures Exec(s).None? <==> forall q, a, k, e :: !Matches(s, q, a, k, e)
    ensures Exec(s).Some? ==>
      var m := Exec(s).value;
      && MatchAt(s, m.index) == Exec(s)
      && (exists a, k, e :: Matches(s, m.index, a, k, e))
      && forall q, a, k, e :: q < m.index ==> !Matches(s, q, a, k, e)
  {
    if Exec(s).None? {
      LeftmostNone(s, |s| + 1);
      NoMatchesWhereAttemptsFail(s, 0, |s| + 1);
    } else {
      var m := Exec(s).value;
      LeftmostSome(s, |s| + 1);
      NoMatchesWhereAttemptsFail(s, 0, m.index);
      MatchAtSound(s, m.index);
      assert Matches(s, m.index, SpaceRunEnd(s, m.index + |Key|), m.start, m.end);
    }
  }

  /** On a match, capture group 1 is non-empty, so `proxyMatch[1]` is always truthy. */
  lemma CaptureOfMatch(s: string)
    ensures Capture(s).None? <==> Exec(s).None?
    ensures Capture(s).Some? ==> |Capture(s).value| > 0
    ensures Capture(s).Some? ==> forall i :: 0 <= i < |Capture(s).value| ==> !IsLineTerminator(Capture(s).value[i])
  {
    if Exec(s).Some? {
      ExecIsAttempt(s);
      MatchAtSound(s, Exec(s).value.index);
    }
  }

  /**
   * When the `\s*` after the matched `=` runs to the end of the input,
   * backtracking leaves `.+` a single character, the last one that is not a
   * line terminator, which is a `\s` character; otherwise the group starts
   * where that `\s*` stops, at the first character after `=` that is not
   * `\s` (which may lie on a later line).
   */
  lemma {:induction false} CaptureAfterEquals(s: string, p: nat)
    requires MatchAt(s, p).Some?
    ensures p + |Key| <= SpaceRunEnd(s, p + |Key|) < |s|
    ensures var a := SpaceRunEnd(s, p + |Key|); var b := SpaceRunEnd(s, a + 1); var m := MatchAt(s, p).value;
      && s[a] == '='
      && m.start < m.end <= |s|
      && (b == |s| <==> IsSpace(s[m.start]))
      && (b == |s| ==> m.end == m.start + 1)
      && (b < |s| ==> m.start == b)
  {
    var a := SpaceRunEnd(s, p + |Key|);
    var b := SpaceRunEnd(s, a + 1);
    var m := MatchAt(s, p).value;
    if b < |s| {
      LineTerminatorIsSpace(s[b]);
    } else {
      var k := LastDot(s, a + 1, b).value;
      assert m.start == k;
      assert IsSpace(s[k]);
      assert m.end == k + 1 by {
        if k + 1 < |s| { assert IsLineTerminator(s[k + 1]); }
      }
    }
  }

  /** A value on the key's own line: `GITHUB_PROXY=v` with `v` starting with a character that is not `\s`. */
  lemma KeyLineValue(v: string)
    requires |v| > 0 && !IsSpace(v[0])
    requires forall i :: 0 <= i < |v| ==> !IsLineTerminator(v[i])
    ensures Capture(Key + "=" + v) == Some(v)
  {
    var s := Key + "=" + v;
    assert s[0..|Key|] == Key;
    assert s[|Key|] == '=';
    assert SpaceRunEnd(s, |Key|) == |Key|;
    assert s[|Key| + 1] == v[0];
    assert SpaceRunEnd(s, |Key| + 1) == |Key| + 1;
    assert forall i :: |Key| + 1 <= i < |s| ==> s[i] == v[i - |Key| - 1];
    assert DotRunEnd(s, |Key| + 1) == |s|;
    assert MatchAt(s, 0) == Some(Span(0, |Key| + 1, |s|));
    ExecAfterFailures(s, 0);
    assert s[|Key| + 1..|s|] == v;
  }

  /**
   * `\s` also matches line terminators, so after `GITHUB_PROXY=` at the end of
   * a line the value is taken from the next line.
   */
  lemma NextLineValue(v: string)
    requires |v| > 0 && !IsSpace(v[0])
    requires forall i :: 0 <= i < |v| ==> !IsLineTerminator(v[i])
    ensures Capture(Key + "=\n" + v) == Some(v)
  {
    var s := Key + "=\n" + v;
    assert s[0..|Key|] == Key;
    assert s[|Key|] == '=';
    assert SpaceRunEnd(s, |Key|) == |Key|;
    assert s[|Key| + 1] == '\n' && s[|Key| + 2] == v[0];
    assert SpaceRunEnd(s, |Key| + 1) == |Key| + 2;
    assert forall i :: |Key| + 2 <= i < |s| ==> s[i] == v[i - |Key| - 2];
    assert DotRunEnd(s, |Key| + 2) == |s|;
    assert MatchAt(s, 0) == Some(Span(0, |Key| + 2, |s|));
    ExecAfterFailures(s, 0);
    assert s[|Key| + 2..|s|] == v;
  }

  /** Only line terminators after `GITHUB_PROXY=`: `.+` has nothing to consume and the attempt fails. */
  lemma NoValueBeforeEnd(t: string)
    requires forall i :: 0 <= i < |t| ==> IsLineTerminator(t[i])
    ensures MatchAt(Key + "=" + t, 0).None?
  {
    var s := Key + "=" + t;
    assert s[|Key|] == '=';
    assert SpaceRunEnd(s, |Key|) == |Key|;
    assert forall i :: |Key| + 1 <= i < |s| ==> s[i] == t[i - |Key| - 1];
    assert SpaceRunEnd(s, |Key| + 1) == |s|;
    MatchAtCorrect(s, 0);
  }

  /**
   * Blanks after `GITHUB_PROXY=`, then only line terminators: the attempt at
   * index 0 succeeds, with both `\s*` runs stopping where the blank value says.
   */
  lemma BlankValueMatches(blanks: string, ends: string)
    requires |blanks| > 0 && forall i :: 0 <= i < |blanks| ==> IsWhiteSpace(blanks[i])
    requires forall i :: 0 <= i < |ends| ==> IsLineTerminator(ends[i])
    ensures var s := Key + "=" + blanks + ends;
      && MatchAt(s, 0).Some?
      && SpaceRunEnd(s, |Key|) == |Key|
      && SpaceRunEnd(s, |Key| + 1) == |s|
  {
    var s := Key + "=" + blanks + ends;
    var n := |Key| + 1 + |blanks|;
    assert forall i :: |Key| + 1 <= i < n ==> s[i] == blanks[i - |Key| - 1];
    assert forall i :: n <= i < |s| ==> s[i] == ends[i - n];
    assert s[0..|Key|] == Key;
    assert s[|Key|] == '=';
    assert SpaceRunEnd(s, |Key|) == |Key|;
    assert SpaceRunEnd(s, |Key| + 1) == |s|;
    assert !IsLineTerminator(s[|Key| + 1]);
  }

  /** `GITHUB_PROXY=` followed only by line terminators: `exec` finds nothing at all. */
  lemma NoValueAnywhere(t: string)
    requires forall i :: 0 <= i < |t| ==> IsLineTerminator(t[i])
    ensures Exec(Key + "=" + t).None?
  {
    var s := Key + "=" + t;
    NoValueBeforeEnd(t);
    forall q | 0 < q <= |s| ensures MatchAt(s, q).None? {
      NoKeyAfterStart(t, q);
    }
    AttemptsFailFromEach(s, |s| + 1);
    FailuresLeaveNothing(s, |s| + 1);
  }

  /** The key's first letter occurs only at index 0 of `GITHUB_PROXY=` followed by line terminators. */
  lemma NoKeyAfterStart(t: string, q: nat)
    requires forall i :: 0 <= i < |t| ==> IsLineTerminator(t[i])
    requires 0 < q
    ensures MatchAt(Key + "=" + t, q).None?
  {
    var s := Key + "=" + t;
    if q + |Key| <= |s| {
      assert s[q] != 'G' by {
        if q > |Key| { assert s[q] == t[q - |Key| - 1]; }
      }
      assert s[q..q + |Key|][0] == s[q];
    }
  }

  /** The key is not anchored: any text that does not itself contain the key may come before it. */
  lemma UnanchoredKey(pre: string, v: string)
    requires forall q :: 0 <= q < |pre| ==> !OccursAt(pre + Key, Key, q)
    requires |v| > 0 && !IsSpace(v[0])
    requires forall i :: 0 <= i < |v| ==> !IsLineTerminator(v[i])
    ensures Capture(pre + Key + "=" + v) == Some(v)
  {
    var s := pre + Key + "=" + v;
    var n := |pre|;
    forall q | 0 <= q < n ensures MatchAt(s, q).None? {
      assert !OccursAt(pre + Key, Key, q);
      assert s[q..q + |Key|] == (pre + Key)[q..q + |Key|];
    }
    assert s[n..n + |Key|] == Key;
    assert s[n + |Key|] == '=';
    assert SpaceRunEnd(s, n + |Key|) == n + |Key|;
    assert s[n + |Key| + 1] == v[0];
    assert SpaceRunEnd(s, n + |Key| + 1) == n + |Key| + 1;
    assert forall i :: n + |Key| + 1 <= i < |s| ==> s[i] == v[i - n - |Key| - 1];
    assert DotRunEnd(s, n + |Key| + 1) == |s|;
    assert MatchAt(s, n) == Some(Span(n, n + |Key| + 1, |s|));
    ExecAfterFailures(s, n);
    assert s[n + |Key| + 1..|s|] == v;
  }

  /** A commented-out assignment still matches: `.env` comments mean nothing to the pattern. */
  lemma CommentedOutKeyMatches()
    ensures Capture("# " + Key + "=" + "http://old:1") == Some("http://old:1")
  {
    var v := "http://old:1";
    assert forall i :: 0 <= i < |v| ==> !IsSpace(v[i]);
    forall q | 0 <= q < 2 ensures !OccursAt("# " + Key, Key, q) {
      assert ("# " + Key)[q] != Key[0];
    }
    UnanchoredKey("# ", v);
  }

  /**
   * An assignment left empty at the end of its line takes the whole next line
   * as its value, even when that line is another assignment.
   */
  lemma EmptyAssignmentTakesNextLine()
    ensures Capture(Key + "=\n" + (Key + "=x")) == Some(Key + "=x")
  {
    var v := Key + "=x";
    assert forall i :: 0 <= i < |v| ==> !IsSpace(v[i]);
    NextLineValue(v);
  }
}
