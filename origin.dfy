/**
 * The test that decides whether a git command needs the proxy: the command
 * line `git <args joined by spaces>`, lower-cased, mentions `origin`, or one
 * argument is `origin` in any case.
 */
module OriginDetection {
  import opened JsText

  const Origin := "origin"

  /** `` `git ${gitArgs.join(' ')}` `` */
  function FullGitCommand(args: seq<string>): string {
    "git " + Join(args, " ")
  }

  /**
   * `gitArgs.some(arg => arg.toLowerCase() === 'origin') ||
   *  fullGitCommand.toLowerCase().includes('origin')`
   */
  predicate HasOrigin(args: seq<string>) {
    || (exists i :: 0 <= i < |args| && Lower(args[i]) == Origin)
    || Includes(Lower(FullGitCommand(args)), Origin)
  }

  /** Some single argument, lower-cased, contains `origin`. */
  predicate SomeArgumentMentionsOrigin(args: seq<string>) {
    exists i :: 0 <= i < |args| && Includes(Lower(args[i]), Origin)
  }

  /** An argument's occurrence of a word survives joining. */
  lemma {:induction false} JoinKeepsOccurrence(args: seq<string>, i: int, w: string)
    requires 0 <= i < |args| && Includes(Lower(args[i]), w)
    ensures Includes(Lower(Join(args, " ")), w)
  {
    if |args| == 1 {
      return;
    }
    var rest := Join(args[1..], " ");
    LowerConcat(args[0] + " ", rest);
    LowerConcat(args[0], " ");
    if i == 0 {
      IncludesInfix([], Lower(args[0]), Lower(" ") + Lower(rest), w);
      assert [] + Lower(args[0]) + (Lower(" ") + Lower(rest)) == Lower(args[0] + " " + rest);
    } else {
      JoinKeepsOccurrence(args[1..], i - 1, w);
      IncludesInfix(Lower(args[0]) + Lower(" "), Lower(rest), [], w);
      assert Lower(args[0]) + Lower(" ") + Lower(rest) + [] == Lower(args[0] + " " + rest);
    }
  }

  /** An occurrence of a word without spaces in the joined arguments lies inside one argument. */
  lemma {:induction false} JoinedOccurrenceInArgument(args: seq<string>, w: string)
    requires ' ' !in w && |w| > 0
    requires Includes(Lower(Join(args, " ")), w)
    ensures exists i :: 0 <= i < |args| && Includes(Lower(args[i]), w)
  {
    if |args| == 0 {
      assert false;  // the empty line contains no non-empty word
    }
    if |args| == 1 {
      assert Includes(Lower(args[0]), w);
      return;
    }
    var rest := Join(args[1..], " ");
    LowerConcat(args[0] + " ", rest);
    LowerConcat(args[0], " ");
    assert Lower(" ") == [' '];
    IncludesAcross(Lower(args[0]), ' ', Lower(rest), w);
    if !Includes(Lower(args[0]), w) {
      JoinedOccurrenceInArgument(args[1..], w);
      var j :| 0 <= j < |args[1..]| && Includes(Lower(args[1..][j]), w);
      assert args[j + 1] == args[1..][j];
    }
  }

  /**
   * The command mentions `origin` exactly when some argument, lower-cased,
   * contains it: `origin` has no space and `git ` does not contain it, so an
   * occurrence in the joined line never straddles two arguments. The
   * exact-match test is subsumed, and `originx` or a commit message saying
   * "Origin" also counts.
   */
  lemma HasOriginIffSomeArgument(args: seq<string>)
    ensures HasOrigin(args) <==> SomeArgumentMentionsOrigin(args)
  {
    if SomeArgumentMentionsOrigin(args) {
      ArgumentMentionImpliesOrigin(args);
    }
    if HasOrigin(args) {
      OriginImpliesArgumentMention(args);
    }
  }

  /** The lower-cased command line is `git `, then the lower-cased joined arguments. */
  lemma LowerFullGitCommand(args: seq<string>)
    ensures Lower(FullGitCommand(args)) == "git" + [' '] + Lower(Join(args, " "))
  {
    var line := Join(args, " ");
    LowerConcat("git", " " + line);
    LowerConcat(" ", line);
    assert Lower("git") == "git";
    assert Lower(" ") == [' '];
  }

  /** An argument containing `origin` in any case puts it in the lower-cased command line. */
  lemma ArgumentMentionImpliesOrigin(args: seq<string>)
    requires SomeArgumentMentionsOrigin(args)
    ensures Includes(Lower(FullGitCommand(args)), Origin)
  {
    var line := Join(args, " ");
    LowerFullGitCommand(args);
    var i :| 0 <= i < |args| && Includes(Lower(args[i]), Origin);
    JoinKeepsOccurrence(args, i, Origin);
    IncludesInfix("git" + [' '], Lower(line), [], Origin);
    assert "git" + [' '] + Lower(line) + [] == Lower(FullGitCommand(args));
  }

  /** Either half of the test puts `origin` inside one argument. */
  lemma OriginImpliesArgumentMention(args: seq<string>)
    requires HasOrigin(args)
    ensures SomeArgumentMentionsOrigin(args)
  {
    if exists i :: 0 <= i < |args| && Lower(args[i]) == Origin {
      var i :| 0 <= i < |args| && Lower(args[i]) == Origin;
      assert OccursAt(Lower(args[i]), Origin, 0);
    } else {
      LowerFullGitCommand(args);
      IncludesAcross("git", ' ', Lower(Join(args, " ")), Origin);
      assert !Includes("git", Origin);
      JoinedOccurrenceInArgument(args, Origin);
    }
  }

  /** The exact-match half of the test is subsumed by the substring test on the command line. */
  lemma HasOriginIffJoinedLine(args: seq<string>)
    ensures HasOrigin(args) <==> Includes(Lower(FullGitCommand(args)), Origin)
  {
    if HasOrigin(args) {
      OriginImpliesArgumentMention(args);
      ArgumentMentionImpliesOrigin(args);
    }
  }

  /** `gitp push origin main` uses the proxy. */
  lemma PushOriginNeedsProxy()
    ensures HasOrigin(["push", "origin", "main"])
  {
    assert Lower("origin") == Origin;
    assert ["push", "origin", "main"][1] == "origin";
  }

  /** `gitp status` does not. */
  lemma StatusNeedsNoProxy()
    ensures !HasOrigin(["status"])
  {
    HasOriginIffSomeArgument(["status"]);
    assert Lower("status") == "status";
    assert "status"[0..6][0] != Origin[0];
    assert !OccursAt("status", Origin, 0);
  }

  /** A branch named `originx` is a false positive: the substring test matches it. */
  lemma BranchOriginxNeedsProxy()
    ensures HasOrigin(["checkout", "originx"])
  {
    var args := ["checkout", "originx"];
    assert Lower("originx") == "originx";
    assert OccursAt("originx", Origin, 0);
    assert Includes(Lower(args[1]), Origin);
    HasOriginIffSomeArgument(args);
  }
}
