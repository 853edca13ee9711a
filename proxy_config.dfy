/**
 * `readProxyConfig`: where the proxy address comes from. The local `.env`
 * file is consulted first, then `<home>/.git-proxy.env`, then the built-in
 * default; an exception while reading abandons the search for the default.
 * The file system is an input: each file is missing, unreadable (reading it
 * throws) or readable with some content.
 */
module ProxyConfig {
  import opened Wrappers
  import opened JsText
  import opened ProxyPattern

  /** What `fs.existsSync` and `fs.readFileSync` report for one configuration file. */
  datatype FileState = Missing | Unreadable | Readable(content: string)

  /** What one configuration file yields: a value, nothing (try the next tier), or an exception. */
  datatype TierResult = Found(value: string) | NotFound | Threw

  const DefaultProxy := "http://localhost:10808"

  /** The variable is set and non-empty, i.e. `process.env[name]` is truthy. */
  predicate Truthy(env: map<string, string>, name: string) {
    name in env && env[name] != ""
  }

  /** `process.env.HOME || process.env.USERPROFILE || ''` */
  function HomeDir(env: map<string, string>): (home: string)
    ensures home != "" <==> Truthy(env, "HOME") || Truthy(env, "USERPROFILE")
    ensures Truthy(env, "HOME") ==> home == env["HOME"]
    ensures !Truthy(env, "HOME") && Truthy(env, "USERPROFILE") ==> home == env["USERPROFILE"]
  {
    if Truthy(env, "HOME") then env["HOME"]
    else if Truthy(env, "USERPROFILE") then env["USERPROFILE"]
    else ""
  }

  /**
   * One tier: if the file exists, read it (which may throw), run the pattern
   * over its content and, if `proxyMatch && proxyMatch[1]`, return the
   * trimmed group.
   */
  function ReadTier(f: FileState): (r: TierResult)
    ensures r.Threw? <==> f.Unreadable?
    ensures r.NotFound? <==> f.Missing? || (f.Readable? && Exec(f.content).None?)
    ensures r.Found? ==> f.Readable? && Capture(f.content).Some? && r.value == Trim(Capture(f.content).value)
  {
    match f
    case Missing => NotFound
    case Unreadable => Threw
    case Readable(text) =>
      CaptureOfMatch(text);
      match Capture(text)
      case Some(group) => if group != "" then Found(Trim(group)) else NotFound
      case None => NotFound
  }

  /** `readProxyConfig()` */
  function ReadProxyConfig(env: map<string, string>, local: FileState, global: FileState): (proxy: string)
    ensures ReadTier(local).Found? ==> proxy == ReadTier(local).value
    ensures ReadTier(local).Threw? ==> proxy == DefaultProxy
    ensures proxy == DefaultProxy || ReadTier(local) == Found(proxy) || (HomeDir(env) != "" && ReadTier(global) == Found(proxy))
  {
    var home := HomeDir(env);
    match ReadTier(local)
    case Found(v) => v
    case Threw => DefaultProxy
    case NotFound =>
      if home == "" then DefaultProxy
      else
        match ReadTier(global)
        case Found(v) => v
        case _ => DefaultProxy
  }

  /**
   * The tiers as a chain of providers: the local file always, the global one
   * only when a home directory is known.
   */
  function Tiers(env: map<string, string>, local: FileState, global: FileState): (tiers: seq<TierResult>)
    ensures 1 <= |tiers| <= 2 && tiers[0] == ReadTier(local)
    ensures |tiers| == 2 <==> HomeDir(env) != ""
    ensures |tiers| == 2 ==> tiers[1] == ReadTier(global)
  {
    [ReadTier(local)] + (if HomeDir(env) != "" then [ReadTier(global)] else [])
  }

  /** A chain of providers: the first value found wins, an exception ends the search with the default, so does the end of the chain. */
  function FirstFound(tiers: seq<TierResult>, default: string): string {
    if |tiers| == 0 then default
    else
      match tiers[0]
      case Found(v) => v
      case Threw => default
      case NotFound => FirstFound(tiers[1..], default)
  }

  /** `readProxyConfig` is the chain local file, global file, default. */
  lemma ReadProxyConfigIsChain(env: map<string, string>, local: FileState, global: FileState)
    ensures ReadProxyConfig(env, local, global) == FirstFound(Tiers(env, local, global), DefaultProxy)
  {
    var tiers := Tiers(env, local, global);
    if |tiers| == 2 {
      assert tiers[1..] == [ReadTier(global)];
      assert FirstFound(tiers[1..], DefaultProxy) == FirstFound([], DefaultProxy) || tiers[1..][0].Found?;
    } else {
      assert tiers[1..] == [];
    }
  }

  /** A value in the local `.env` file wins, whatever the global file holds. */
  lemma LocalWins(env: map<string, string>, local: FileState, global: FileState)
    requires local.Readable? && Capture(local.content).Some?
    ensures ReadProxyConfig(env, local, global) == Trim(Capture(local.content).value)
  {
    CaptureOfMatch(local.content);
  }

  /**
   * The global file is consulted only when the local one is missing or has no
   * match, and only when a home directory is known.
   */
  lemma GlobalSecond(env: map<string, string>, local: FileState, global: FileState)
    requires local.Missing? || (local.Readable? && Exec(local.content).None?)
    ensures HomeDir(env) != "" && global.Readable? && Capture(global.content).Some? ==>
      ReadProxyConfig(env, local, global) == Trim(Capture(global.content).value)
    ensures HomeDir(env) == "" ==> ReadProxyConfig(env, local, global) == DefaultProxy
  {
    if global.Readable? {
      CaptureOfMatch(global.content);
    }
  }

  /** With no value in either file, the result is the default. */
  lemma DefaultWhenNoValue(env: map<string, string>, local: FileState, global: FileState)
    requires !ReadTier(local).Found? && !ReadTier(global).Found?
    ensures ReadProxyConfig(env, local, global) == DefaultProxy
  {
  }

  /** An exception while reading the local file skips the global file. */
  lemma LocalThrowSkipsGlobal(env: map<string, string>, global: FileState)
    ensures ReadProxyConfig(env, Unreadable, global) == DefaultProxy
  {
  }

  /** The resolved proxy never begins or ends with `\s`, and comes from a file or is the default. */
  lemma ResolvedIsStripped(env: map<string, string>, local: FileState, global: FileState)
    ensures var r := ReadProxyConfig(env, local, global);
      && Stripped(r)
      && (r == DefaultProxy || ReadTier(local) == Found(r) || ReadTier(global) == Found(r))
  {
    assert Stripped(DefaultProxy);
  }

  /**
   * `GITHUB_PROXY=v` in the local file resolves to `v` itself when `v` has no
   * `\s` at either end and no line terminator.
   */
  lemma KeyLineValueResolves(env: map<string, string>, v: string, global: FileState)
    requires |v| > 0 && Stripped(v)
    requires forall i :: 0 <= i < |v| ==> !IsLineTerminator(v[i])
    ensures ReadProxyConfig(env, Readable(Key + "=" + v), global) == v
  {
    KeyLineValue(v);
    CaptureOfMatch(Key + "=" + v);
    assert TrimBounds(v, 0, |v|) && v == v[0..|v|];
    TrimUnique(v, v);
  }

  /** The group of an attempt trims to "" exactly when the `\s*` after its `=` runs to the end of the input. */
  lemma GroupTrimsToEmptyAt(s: string, p: nat, m: Span, a: nat)
    requires MatchAt(s, p) == Some(m)
    requires p + |Key| <= |s| && a == SpaceRunEnd(s, p + |Key|)
    ensures a < |s| && m.start < m.end <= |s|
    ensures Trim(s[m.start..m.end]) == "" <==> SpaceRunEnd(s, a + 1) == |s|
  {
    CaptureAfterEquals(s, p);
    var group := s[m.start..m.end];
    TrimEmptyIffAllSpace(group);
    assert group[0] == s[m.start];
    assert SpaceBetween(group, 0, |group|) <==> IsSpace(group[0]);
  }

  /** A readable file with a match yields its trimmed group. */
  lemma ReadTierOfMatch(text: string, m: Span)
    requires Exec(text) == Some(m)
    ensures m.start < m.end <= |text|
    ensures ReadTier(Readable(text)) == Found(Trim(text[m.start..m.end]))
  {
    CaptureOfMatch(text);
  }

  /**
   * A blank-only value in the local file stops the search with "" even when
   * the global file has a value; line breaks may end the file.
   */
  lemma BlankLocalValueShadowsGlobal(env: map<string, string>, blanks: string, ends: string, global: FileState)
    requires |blanks| > 0 && forall i :: 0 <= i < |blanks| ==> IsWhiteSpace(blanks[i])
    requires forall i :: 0 <= i < |ends| ==> IsLineTerminator(ends[i])
    ensures ReadProxyConfig(env, Readable(Key + "=" + blanks + ends), global) == ""
  {
    var text := Key + "=" + blanks + ends;
    BlankValueMatches(blanks, ends);
    ExecAfterFailures(text, 0);
    var m := MatchAt(text, 0).value;
    GroupTrimsToEmptyAt(text, 0, m, |Key|);
    ReadTierOfMatch(text, m);
  }

  /**
   * `GITHUB_PROXY=` with nothing but line breaks after it matches nowhere, so
   * the local file counts as having no value and the global file is read.
   */
  lemma EmptyLocalValueFallsThrough(env: map<string, string>, ends: string, global: FileState)
    requires forall i :: 0 <= i < |ends| ==> IsLineTerminator(ends[i])
    ensures ReadProxyConfig(env, Readable(Key + "=" + ends), global) == ReadProxyConfig(env, Missing, global)
  {
    NoValueAnywhere(ends);
  }
}
