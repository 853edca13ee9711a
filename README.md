# gitp: proxy-aware git wrapper, modelled in Dafny

`gitp <git arguments>` runs `git` with those arguments. When the command line
mentions `origin`, it first sets `HTTP_PROXY`, `HTTPS_PROXY`, `http_proxy` and
`https_proxy` to a proxy address. Afterwards it puts those four variables back.
The address comes from the first `GITHUB_PROXY` assignment found by
`/GITHUB_PROXY\s*=\s*(.+)/`. The local `.env` is searched first, then
`<home>/.git-proxy.env`. If neither yields a value, the address is
`http://localhost:10808`.

The model has seven modules, one per concern of `src/index.ts`:

- `Wrappers`: `Option`, standing for `undefined`/`null`.
- `JsText`: the ECMA-262 character classes (WhiteSpace, section 12.2; LineTerminator, section 12.3), `String.prototype.trim`, ASCII `toLowerCase`, `includes` and `join`.
- `ProxyPattern`: the regular expression and its `exec`. The model follows the backtracking semantics of ECMA-262 section 22.2. It is proved equal to a declarative description: the leftmost match, and at that index the match that greedy backtracking reaches first.
- `ProxyConfig`: `readProxyConfig`. It chooses the home directory, reads the tiers and falls back to the default.
- `OriginDetection`: the test that decides whether the proxy is needed.
- `ProxyEnvironment`: `process.env` as a class over a `map<string, string>`, with methods that snapshot, set and restore the four variables.
- `Gitp`: the help/run dispatch, `executeGitWithProxy`, and the exit-code expressions.

Some of the code's behaviour differs from what a reader of its help text (src/index.ts:187-195) might expect. In each case the model follows the code:

- The value is not read line by line. `\s` also matches line terminators, so `GITHUB_PROXY=` at the end of a line takes the next non-blank line as its value.
- The key is not anchored. `MY_GITHUB_PROXY=` and a commented-out `# GITHUB_PROXY=` both match.
- A value made only of blanks up to the end of the file (line breaks may follow) is returned as `""`. It does not fall through to the next tier, so `GITHUB_PROXY= ` hides the global file's value. Blanks followed by more text on later lines take that text instead.
- `GITHUB_PROXY=` with nothing after it but line breaks matches nowhere, so the search moves on to the global file. One trailing blank after `=` therefore changes the result.
- A read error in the local file goes straight to the default. The global file is skipped.
- The four variables are saved on every run, not only when the proxy is needed.

## Model

| member | source | states |
|---|---|---|
| `JsText.Trim` | src/index.ts:25 | the result is a slice of the input; only `\s` characters are cut off; no `\s` remains at either end |
| `JsText.TrimUnique` | src/index.ts:25 | any string that meets that description is `Trim(s)`, so the trimmed form is unique |
| `JsText.TrimIdempotent` | src/index.ts:25 | trimming twice equals trimming once |
| `JsText.TrimEmptyIffAllSpace` | src/index.ts:25 | trim gives `""` exactly when every character is `\s` |
| `JsText.LeadingSpaces` | src/index.ts:25 | the longest prefix made of `\s` characters |
| `JsText.TrailingSpaces` | src/index.ts:25 | the longest suffix made of `\s` characters |
| `JsText.Lower` | src/index.ts:65-66 | same length; A-Z become a-z; every other character is unchanged |
| `JsText.Join` | src/index.ts:51 | `join` of no parts is `""` and of one part is that part |
| `JsText.Includes` | src/index.ts:66 | `includes`: the word occurs at some index; `IncludesInfix` and `IncludesAcross` state how occurrences behave under concatenation |
| `JsText.IncludesAcross` | src/index.ts:66 | an occurrence of a word without `c` in `x + c + y` lies within `x` or within `y` |
| `ProxyPattern.SpaceRunEnd` | src/index.ts:23 | where a greedy `\s*` stops: all characters before are `\s`, the next is not |
| `ProxyPattern.DotRunEnd` | src/index.ts:23 | where a greedy `.+` stops: no line terminator before it, a line terminator or the end after |
| `ProxyPattern.LastDot` | src/index.ts:23 | the last index in a range that `.` accepts; only line terminators follow it; None when the range holds only line terminators |
| `ProxyPattern.MatchAt` | src/index.ts:23 | one attempt of the matcher at index p; on success the match index is p and the group is non-empty and after the key; `MatchAtCorrect` proves it equal to the declarative match |
| `ProxyPattern.Exec` | src/index.ts:23 | `exec` as the scan over start positions 0 up to the length of the input; a result has a non-empty group inside the input; `ExecCorrect` proves it returns the leftmost match or None when there is none |
| `ProxyPattern.Capture` | src/index.ts:23-24 | `proxyMatch[1]`: the group of the `exec` result; `CaptureOfMatch` proves it present exactly when `exec` succeeds, non-empty, and free of line terminators |
| `ProxyPattern.MatchAtCorrect` | src/index.ts:23 | an attempt at index p fails exactly when no match starts at p; on success it returns the lexicographically greatest (`=`, group start, group end), i.e. the one backtracking finds first |
| `ProxyPattern.ExecCorrect` | src/index.ts:23 | `exec` fails exactly when the pattern matches nowhere; otherwise it returns the attempt at the leftmost index where a match exists, and no match starts before that index |
| `ProxyPattern.ExecAfterFailures` | src/index.ts:23 | when every attempt before index i fails and the one at i succeeds, `exec` returns the attempt at i |
| `ProxyPattern.CaptureOfMatch` | src/index.ts:23-24 | a capture exists exactly when `exec` succeeds; it is never empty, so `proxyMatch[1]` is truthy; it holds no line terminator |
| `ProxyPattern.CaptureAfterEquals` | src/index.ts:23 | the `\s*` after the `=` runs to the end of the input exactly when the group starts with a `\s` character, and then the group is that one character; otherwise the group starts where that `\s*` stops |
| `ProxyPattern.KeyLineValue` | src/index.ts:23 | `GITHUB_PROXY=v` captures `v` when `v` starts with a non-`\s` character and holds no line terminator |
| `ProxyPattern.NextLineValue` | src/index.ts:23 | `GITHUB_PROXY=` followed by a line break and then `v` captures `v` from the next line |
| `ProxyPattern.NoValueBeforeEnd` | src/index.ts:23 | `GITHUB_PROXY=` followed only by line terminators does not match at that index |
| `ProxyPattern.NoValueAnywhere` | src/index.ts:23 | `exec` finds nothing in `GITHUB_PROXY=` followed only by line terminators |
| `ProxyPattern.BlankValueMatches` | src/index.ts:23 | blanks and then only line terminators after `GITHUB_PROXY=` still match at index 0, with the `\s*` after `=` running to the end |
| `ProxyPattern.UnanchoredKey` | src/index.ts:23 | any prefix that does not contain the key may come before it; the value is still captured |
| `ProxyPattern.CommentedOutKeyMatches` | src/index.ts:23 | `# GITHUB_PROXY=http://old:1` yields `http://old:1` |
| `ProxyPattern.EmptyAssignmentTakesNextLine` | src/index.ts:23 | an empty assignment captures the whole next line, even when that line is `GITHUB_PROXY=x` |
| `ProxyConfig.HomeDir` | src/index.ts:15 | `HOME` if set and non-empty, else `USERPROFILE` if set and non-empty, else `""` |
| `ProxyConfig.ReadProxyConfig` | src/index.ts:13-45 | a local value wins; a throwing local read gives the default; otherwise the result is the default or the global file's value, the latter only when a home directory is known |
| `ProxyConfig.ReadTier` | src/index.ts:21-26 | an unreadable file throws; a missing file or one with no match yields nothing; otherwise the result is the trimmed capture |
| `ProxyConfig.Tiers` | src/index.ts:21-36 | the local tier is always present; the global tier is present exactly when the home directory is non-empty |
| `ProxyConfig.ReadProxyConfigIsChain` | src/index.ts:13-45 | `readProxyConfig` equals a chain of providers over the tiers: the first value wins, an exception gives the default, so does running out of tiers |
| `ProxyConfig.LocalWins` | src/index.ts:21-26 | a match in the local `.env` decides the result, whatever the global file holds |
| `ProxyConfig.GlobalSecond` | src/index.ts:30-36 | with no local value, the global file's value is used when a home directory is known; with no home directory the result is the default |
| `ProxyConfig.DefaultWhenNoValue` | src/index.ts:38-40 | with no value in either file the result is `http://localhost:10808` |
| `ProxyConfig.LocalThrowSkipsGlobal` | src/index.ts:41-44 | a throwing local read gives the default, whatever the global file holds |
| `ProxyConfig.ResolvedIsStripped` | src/index.ts:13-45 | the resolved proxy has no `\s` at either end; it is the default or a value one of the tiers found |
| `ProxyConfig.ReadTierOfMatch` | src/index.ts:21-26 | a readable file in which `exec` succeeds yields its trimmed capture group |
| `ProxyConfig.GroupTrimsToEmptyAt` | src/index.ts:23-25 | the capture of a successful attempt trims to `""` exactly when the `\s*` after its `=` runs to the end of the input |
| `ProxyConfig.BlankLocalValueShadowsGlobal` | src/index.ts:21-26 | `GITHUB_PROXY=` followed by blanks, then at most line breaks, in the local file resolves to `""`, even when the global file has a value |
| `ProxyConfig.EmptyLocalValueFallsThrough` | src/index.ts:21-36 | `GITHUB_PROXY=` followed only by line breaks resolves exactly as if the local file were missing |
| `ProxyConfig.KeyLineValueResolves` | src/index.ts:21-26 | `GITHUB_PROXY=v` in the local file resolves to `v` when `v` has no `\s` at either end and no line break |
| `OriginDetection.FullGitCommand` | src/index.ts:51 | `git ` followed by the arguments joined by spaces; `LowerFullGitCommand` states its lower-cased form |
| `OriginDetection.LowerFullGitCommand` | src/index.ts:66 | the lower-cased command line is `git ` followed by the lower-cased joined arguments |
| `OriginDetection.HasOrigin` | src/index.ts:64-66 | the two-part test; `HasOriginIffSomeArgument` and `HasOriginIffJoinedLine` characterise it |
| `OriginDetection.HasOriginIffJoinedLine` | src/index.ts:64-66 | the test holds exactly when the lower-cased command line contains `origin`: the exact-match half adds nothing |
| `OriginDetection.HasOriginIffSomeArgument` | src/index.ts:51-66 | the proxy is needed exactly when some single argument, lower-cased, contains `origin` |
| `OriginDetection.ArgumentMentionImpliesOrigin` | src/index.ts:51-66 | an argument containing `origin` in any case makes the lower-cased joined command line contain it |
| `OriginDetection.OriginImpliesArgumentMention` | src/index.ts:51-66 | an exact `origin` argument or an occurrence in the joined line always lies inside one argument |
| `OriginDetection.PushOriginNeedsProxy` | src/index.ts:64-66 | `push origin main` needs the proxy |
| `OriginDetection.StatusNeedsNoProxy` | src/index.ts:64-66 | `status` does not |
| `OriginDetection.BranchOriginxNeedsProxy` | src/index.ts:64-66 | `checkout originx` does: it is a false positive of the substring test |
| `ProxyEnvironment.SnapshotOf` | src/index.ts:54-57 | the snapshot holds each of the four variables' value, or None when it is unset |
| `ProxyEnvironment.WithProxy` | src/index.ts:74-77 | all four variables equal the proxy; every other variable is unchanged |
| `ProxyEnvironment.Reset` | src/index.ts:149-153 | the variable is absent if it was saved as undefined, else it has its saved value; all others are unchanged |
| `ProxyEnvironment.Restored` | src/index.ts:145-171 | each of the four variables is as the snapshot recorded; every other variable is unchanged |
| `ProxyEnvironment.RestoreUndoesProxyChanges` | src/index.ts:138-175 | after any change to the four variables, restoring from the original snapshot gives back the original environment exactly |
| `ProxyEnvironment.ApplyThenRestore` | src/index.ts:74-77 | setting the proxy and then restoring is the identity on the whole environment |
| `ProxyEnvironment.RestoreIdempotent` | src/index.ts:145-171 | restoring twice from one snapshot equals restoring once |
| `ProxyEnvironment.Environment.TakeSnapshot` | src/index.ts:54-57 | returns the snapshot of the current environment and changes nothing |
| `ProxyEnvironment.Environment.SetProxy` | src/index.ts:74-77 | the new environment is the old one with all four variables set to the proxy |
| `ProxyEnvironment.Environment.Restore` | src/index.ts:138-175 | with `needProxy` the four variables are restored from the snapshot; without it the environment is untouched |
| `Gitp.HelpRequested` | src/index.ts:201 | `--help` or `-h` anywhere in argv, including before the script; `Run` states what follows from it |
| `Gitp.GitArgs` | src/index.ts:50 | the arguments after the first two entries of argv; empty when argv has at most two |
| `Gitp.ExitCode` | src/index.ts:118 | the exit status is 0 exactly when the child's code is `null` or 0; any other code is passed on unchanged |
| `Gitp.ChildEnvironment` | src/index.ts:68-81 | git inherits the four variables set to the resolved proxy when the command mentions `origin`, and the environment unchanged otherwise |
| `Gitp.ExecuteGitWithProxy` | src/index.ts:48-135 | the environment ends as it began on both paths; on exit the child saw `ChildEnvironment` and the status is `ExitCode` of the child's code; on an exception the status is 1 |
| `Gitp.Run` | src/index.ts:201-206 | `--help` or `-h` anywhere in argv gives exit code 0 and no command, with the environment untouched; otherwise the result is `executeGitWithProxy` on `argv.slice(2)` |
| `Gitp.PushOriginWithLocalProxy` | src/index.ts:68-78 | `push origin main` with `GITHUB_PROXY=http://myproxy:8080` in the local `.env` runs git with all four variables set to `http://myproxy:8080` |

## Left out

- Spawning the child (`exec`), piping its stdout/stderr, and the order of its `'exit'` event relative to the `exec` callback (src/index.ts:86-119). This is event-driven I/O. How the child ends is an input (`Gitp.ChildOutcome`).
- The `exec` callback's error path (src/index.ts:90-92). It exits with `error.code || 1` without restoring the variables, and `error.code` may be a string. The model covers only the `'exit'` event path and the synchronous exception path.
- `fs.existsSync`, `fs.readFileSync` and `path.join`. Each file is an input: missing, unreadable (the read throws), or readable with some content. The global file's state is the state of `<home>/.git-proxy.env`.
- All console output, including the help text (src/index.ts:178-198).
- Unicode `toLowerCase`. Lower-casing is modelled on ASCII letters only: A-Z become a-z and every other character is unchanged.
- Windows, where `process.env` is case-insensitive and `HTTP_PROXY` and `http_proxy` are the same variable. The environment is a case-sensitive map.
- `process.exit` itself. The exit code is a returned value.
- UTF-16 code units. Dafny characters are Unicode scalar values. Every `\s` character and every line terminator is in the Basic Multilingual Plane, so captures and trims give the same text.
- Gitp.ExecuteGitWithProxy: on the exception path it does not report the environment in place when the exception was thrown, because no child exists to inherit it.
