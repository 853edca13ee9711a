/**
 * The command-line entry point: show help when asked, otherwise run
 * `git <args>` with the proxy variables set for the duration of the command
 * when it mentions `origin`, restore them, and exit with the command's code.
 * The child process is an input: how it ended.
 */
module Gitp {
  import opened Wrappers
  import opened JsText
  import opened ProxyPattern
  import opened ProxyConfig
  import opened OriginDetection
  import opened ProxyEnvironment

  /**
   * How the git command ended: its `'exit'` event with a code (None for
   * `null`), or an exception thrown synchronously inside the `try` block,
   * such as `exec` failing to spawn.
   */
  datatype ChildOutcome = Exited(code: Option<int>) | Threw

  /** `process.argv.includes('--help') || process.argv.includes('-h')`, over the whole argv. */
  predicate HelpRequested(argv: seq<string>) {
    "--help" in argv || "-h" in argv
  }

  /** `process.argv.slice(2)`: the arguments after the interpreter and the script. */
  function GitArgs(argv: seq<string>): (args: seq<string>)
    ensures |argv| <= 2 ==> args == []
    ensures |argv| > 2 ==> |args| == |argv| - 2 && forall i :: 0 <= i < |args| ==> args[i] == argv[i + 2]
  {
    if |argv| <= 2 then [] else argv[2..]
  }

  /** `code || 0`: `null` and 0 both give 0, any other code is passed on. */
  function ExitCode(code: Option<int>): (status: int)
    ensures status == 0 <==> code.None? || code.value == 0
    ensures status != 0 ==> code == Some(status)
  {
    match code
    case None => 0
    case Some(c) => if c != 0 then c else 0
  }

  /** The environment the git command inherits. */
  function ChildEnvironment(env: map<string, string>, args: seq<string>, local: FileState, global: FileState): (child: map<string, string>)
    ensures !HasOrigin(args) ==> child == env
    ensures HasOrigin(args) ==> forall name :: name in ProxyVariables ==>
      Lookup(child, name) == Some(ReadProxyConfig(env, local, global))
    ensures forall name :: name !in ProxyVariables ==> Lookup(child, name) == Lookup(env, name)
  {
    if HasOrigin(args) then WithProxy(env, ReadProxyConfig(env, local, global)) else env
  }

  /**
   * `executeGitWithProxy`: the proxy variables are saved, set when the
   * command mentions `origin`, and restored on both ways out, so the
   * environment ends as it began.
   */
  method ExecuteGitWithProxy(env: Environment, args: seq<string>, local: FileState, global: FileState, outcome: ChildOutcome)
    returns (exitCode: int, childEnv: Option<map<string, string>>)
    modifies env
    ensures env.vars == old(env.vars)
    ensures outcome.Exited? ==> childEnv == Some(ChildEnvironment(old(env.vars), args, local, global))
    ensures outcome.Exited? ==> exitCode == ExitCode(outcome.code)
    ensures outcome.Threw? ==> childEnv == None && exitCode == 1
  {
    var original := env.TakeSnapshot();
    var needProxy := false;
    var proxyServer := "";
    if HasOrigin(args) {
      needProxy := true;
      proxyServer := ReadProxyConfig(env.vars, local, global);
      env.SetProxy(proxyServer);
    }
    if needProxy {
      RestoreUndoesProxyChanges(old(env.vars), env.vars);
    }
    match outcome
    case Exited(code) =>
      childEnv := Some(env.vars);
      env.Restore(original, needProxy);
      exitCode := ExitCode(code);
    case Threw =>
      childEnv := None;
      env.Restore(original, needProxy);
      exitCode := 1;
  }

  /** The script's top level: help, or the git command. */
  method Run(env: Environment, argv: seq<string>, local: FileState, global: FileState, outcome: ChildOutcome)
    returns (exitCode: int, childEnv: Option<map<string, string>>)
    modifies env
    ensures env.vars == old(env.vars)
    ensures HelpRequested(argv) ==> exitCode == 0 && childEnv == None
    ensures !HelpRequested(argv) && outcome.Exited? ==>
      && childEnv == Some(ChildEnvironment(old(env.vars), GitArgs(argv), local, global))
      && exitCode == ExitCode(outcome.code)
    ensures !HelpRequested(argv) && outcome.Threw? ==> childEnv == None && exitCode == 1
  {
    if HelpRequested(argv) {
      exitCode, childEnv := 0, None;
    } else {
      exitCode, childEnv := ExecuteGitWithProxy(env, GitArgs(argv), local, global, outcome);
    }
  }

  /**
   * `gitp push origin main` with `GITHUB_PROXY=http://myproxy:8080` in the
   * local `.env`: git runs with all four proxy variables set to that address.
   */
  lemma PushOriginWithLocalProxy(env: map<string, string>, global: FileState)
    ensures var child := ChildEnvironment(env, ["push", "origin", "main"], Readable(Key + "=" + "http://myproxy:8080"), global);
      forall name :: name in ProxyVariables ==> Lookup(child, name) == Some("http://myproxy:8080")
  {
    var v := "http://myproxy:8080";
    assert !IsSpace(v[0]) && !IsSpace(v[|v| - 1]);
    assert forall i :: 0 <= i < |v| ==> !IsLineTerminator(v[i]);
    KeyLineValueResolves(env, v, global);
    PushOriginNeedsProxy();
  }
}
