# Docker debug-port resolvers, modelled in Dafny

This project models the two Docker resolvers of the Kubernetes extension's
debugger, `JavaDockerResolver` and `NodeDockerResolver`. Before a debug
session starts, a resolver works out two ports for a workload:

- the **debug port**, where the runtime's debugger (the JDWP agent for Java,
  the inspector or the legacy debugger for Node.js) listens;
- the **app port**, where the application itself serves.

Each resolver works from one of two sources:

- **A Dockerfile** (`resolvePortsFromFile`). The debug port comes from the
  launch arguments:
  - for Java, `-agentlib` / `-Xrunjdwp` with `address=[HOST:]PORT`, or else
    a `$JAVA_OPTS` / `${JAVA_OPTS}` reference, which makes the resolver
    write default agent options into the environment overlay;
  - for Node.js, `--inspect[=...]` or `--debug[=...]`.

  When the launch arguments give nothing, the resolver asks in an input box.
  The app port comes from the `EXPOSE` entries that remain once the debug
  port has been excluded (for Node.js, 9229 and 5858 are also excluded):
  - a single remaining entry is taken;
  - several are offered in a quick pick;
  - an app port written as `$NAME` or `${NAME}` is pinned: `NAME` is set to
    9000 in the overlay and the app port becomes 9000.
- **A running container** (`resolvePortsFromContainer`). The resolver scans
  the `ps -ef` output line by line:
  - the header fixes the column count;
  - a row with fewer tokens than the header is skipped;
  - the command is the tokens from the last header column onwards;
  - the first command matching the runtime's full debug pattern gives the
    debug port.

  When no row matches, it asks in an input box.

The modules are:

- `JsText` — the JavaScript string operations the resolvers use, written
  out: `indexOf`, `split` by a character, `join`, `trim` (ECMAScript white
  space), and `trim().split(/\s+/)`.
- `DebugInterfaces` — the values exchanged:
  - `PortInfo`;
  - what the Dockerfile parser offers (`DockerParser`);
  - the result of `kubectl exec` (`ExecResult`);
  - the prompts shown (`Prompt`);
  - the environment overlay, a class `Env` whose `vars` map the Dockerfile
    path updates in place.
- `ResolverSteps` — the stages both resolvers share, each written once:
  - the input-box answer;
  - filtering exposed ports;
  - choosing among candidates;
  - pinning a variable app port (`PickAppPort` is the imperative app-port
    block);
  - reading the rows of a `ps -ef` listing.
- `JavaDockerResolver`, `NodeDockerResolver` — the resolvers themselves:
  - each `resolvePorts*` is an imperative method (`for` loop with
    `continue` / `break` on the container path, in-place overlay writes on
    the Dockerfile path);
  - each method is proved equal to a specification function (`FromFile`,
    `FromContainer`);
  - the lemmas state what those functions promise.

How the model represents the environment:

- **The debugger patterns.** These are the agent pattern and the full-command
  patterns. The model takes them as matcher functions supplied by the caller.
  The shape of what each matcher can capture is fixed by a subset type:
  - Java, `AddressCapture`: `address` in ASCII letters of any case, `=`,
    then characters that are neither white space nor a comma;
  - Node.js, `FileMatch` / `ContainerMatch`: the flag `debug` or `inspect`,
    exact for the Dockerfile pattern and in any ASCII case for the
    case-insensitive process pattern, plus an optional `=` value without
    white space.
- **Patterns written out.** The `JAVA_OPTS` pattern and the `$NAME` /
  `${NAME}` pattern are written out in full.
- **The user.** The answer to the input box is a parameter (`None` when
  dismissed). The quick-pick answer is an index (`None`, or an index out of
  range, when dismissed). Every prompt shown is returned as a trace, so "no
  prompt is shown" can be stated.
- **Process listings.** The lemmas about the container path build a
  listing from row layouts (`RowLayout`): white space before the first
  column, the column tokens separated by any non-empty runs of white space,
  and white space after the last column (a `\r` before the line break
  included). A row without tokens is a blank line. The lemmas read such a
  listing back through `split("\n")` and `trim().split(/\s+/)`.
- **JavaScript truthiness.** A port is resolved when it is present and not
  the empty string (`Resolved`).

Where the code and its usual description differ, the model follows the code:

- The `JAVA_OPTS` sentinel needs the `$`. The pattern at
  `src/debug/javaDockerResolver.ts:31` is `\$\{?JAVA_OPTS\}?`, so a bare
  `JAVA_OPTS` does not trigger it.
- Image names are compared case-sensitively. There is no lower-casing.
- The Node.js resolver has no sentinel stage. It only ever writes the pinned
  app-port variable into the overlay.
- The Node.js process pattern is case-insensitive, but the port default
  compares the captured flag with `=== "inspect"`. So a bare `--INSPECT`
  gives 5858.

Running the resolver twice on the same inputs gives the same answer: every
resolution is a function of its inputs (`FromFile`, `FromContainer`).

## Model

| member | source | states |
|---|---|---|
| JsText.IndexOfFrom | src/debug/javaDockerResolver.ts:15-17 | `indexOf` from a position: the least occurrence at or after it, or -1 exactly when there is none |
| JsText.Contains | src/debug/javaDockerResolver.ts:15-17 | `indexOf(sub) >= 0` holds exactly when `sub` occurs somewhere in the text |
| JsText.Join | src/debug/javaDockerResolver.ts:89 | `parts.join(sep)`: the pieces with the separator between each two, the empty string for no piece; `SplitJoin` and `JoinSplit` tie it to `split` |
| DebugInterfaces.Resolved | src/debug/javaDockerResolver.ts:36 | `!portInfo.debug` is false: the port is present and not the empty string |
| JsText.Split | src/debug/javaDockerResolver.ts:29 | `split(c)` yields at least one piece and no piece contains `c` |
| JsText.JoinSplit | src/debug/javaDockerResolver.ts:82 | joining the pieces of `split(c)` with `c` gives back the original text |
| JsText.SplitJoin | src/debug/javaDockerResolver.ts:82 | splitting a `\n`-join of lines that hold no `\n` gives back exactly those lines |
| JsText.SplitAround | src/debug/javaDockerResolver.ts:29 | splitting `a + c + b` gives the pieces of `a` followed by the pieces of `b` |
| JsText.SplitAtSeparator | src/debug/javaDockerResolver.ts:29 | a leading separator starts a new, empty piece |
| JsText.SplitAtOther | src/debug/javaDockerResolver.ts:29 | any other leading character joins the first piece |
| JsText.SplitWithoutSeparator | src/debug/javaDockerResolver.ts:29 | a text without the separator splits into itself alone |
| JsText.JoinLast | src/debug/javaDockerResolver.ts:29-30 | a join of two or more pieces is the join of all but the last, the separator, then the last piece |
| JsText.LastSegment | src/debug/javaDockerResolver.ts:29-30 | `split(c)` followed by its last element: a suffix free of `c`, preceded by `c` unless it is the whole text |
| JsText.LastSegmentAfter | src/debug/javaDockerResolver.ts:29-30 | the last segment of `a + c + b`, with `b` free of `c`, is `b` |
| JsText.LastSegmentWhole | src/debug/javaDockerResolver.ts:29-30 | a text free of `c` is its own last segment |
| JsText.TrimStart | src/debug/javaDockerResolver.ts:41 | removing leading white space leaves a suffix that starts with a non-white-space character, and only white space was removed |
| JsText.TrimEnd | src/debug/javaDockerResolver.ts:41 | removing trailing white space leaves a prefix that ends with a non-white-space character, and only white space was removed |
| JsText.Trim | src/debug/javaDockerResolver.ts:41 | `trim()` is empty exactly when the text is all white space, and otherwise begins and ends with a non-white-space character |
| JsText.TrimBlank | src/debug/javaDockerResolver.ts:41 | trimming both ends leaves nothing exactly when the text is all white space |
| JsText.TrimUnchanged | src/debug/javaDockerResolver.ts:41 | a text with no white space at either end is unchanged by `trim()` |
| JsText.SplitOnWhitespace | src/debug/javaDockerResolver.ts:83 | `split(/\s+/)` yields at least one piece and no piece contains white space (what the pieces are is stated by `SplitOnWhitespaceInterleave`) |
| JsText.Tokens | src/debug/javaDockerResolver.ts:85 | `trim().split(/\s+/)` yields at least one column, and a blank line gives a single empty column (the columns of a padded line are stated by `TokensOfPadded`) |
| JsText.SkipRun | src/debug/javaDockerResolver.ts:85 | skipping white space at the start of a run followed by a non-white-space character leaves exactly the text after the run |
| JsText.SplitAfterRun | src/debug/javaDockerResolver.ts:85 | a run of white space before a text that starts with a non-white-space character only adds an empty first piece |
| JsText.TokenThenRun | src/debug/javaDockerResolver.ts:85 | a token, a run of white space and a text that starts with a non-white-space character split into the token followed by the pieces of that text |
| JsText.InterleaveEnds | src/debug/javaDockerResolver.ts:85 | tokens separated by any runs start and end with a non-white-space character |
| JsText.SplitOnWhitespaceInterleave | src/debug/javaDockerResolver.ts:85 | tokens separated by any non-empty runs of white space split back into exactly those tokens |
| JsText.TrimStartPadded | src/debug/javaDockerResolver.ts:85 | `trimStart` removes exactly the white space before a text that starts with a non-white-space character |
| JsText.TrimEndPadded | src/debug/javaDockerResolver.ts:85 | `trimEnd` removes exactly the white space after a text that ends with a non-white-space character |
| JsText.TrimPadded | src/debug/javaDockerResolver.ts:85 | `trim` removes exactly the white space around such a text, whatever its amount |
| JsText.TokensOfPadded | src/debug/javaDockerResolver.ts:85 | a line of tokens with any leading, separating and trailing white space tokenises to exactly those tokens |
| JsText.TokenListConcat | src/debug/javaDockerResolver.ts:89 | the concatenation of two token lists is a token list |
| JsText.InterleaveOneLine | src/debug/javaDockerResolver.ts:82 | tokens separated by runs free of line breaks hold no line break, so a row stays one line |
| ResolverSteps.PromptAnswer | src/debug/javaDockerResolver.ts:41 | `input ? input.trim() : null`: resolved exactly when an answer was given and is not all white space, and then it is the trimmed answer |
| ResolverSteps.AskDebugPort | src/debug/javaDockerResolver.ts:36-42 | a resolved port is kept with no prompt; otherwise exactly one input box is shown, and the port is resolved exactly when the answer has a non-blank character |
| ResolverSteps.AskThenPick | src/debug/javaDockerResolver.ts:36-55 | the prompts of a Dockerfile resolution are at most two: an input box, first and exactly when the launch arguments gave no port, then only quick picks |
| ResolverSteps.ExcludePorts | src/debug/javaDockerResolver.ts:50 | each candidate is an exposed port that is not excluded |
| ResolverSteps.ExcludePortsCount | src/debug/nodeDockerResolver.ts:46-47 | every exposed port not excluded stays a candidate, as many times as it is exposed, and no excluded port does |
| ResolverSteps.ExcludePortsAppend | src/debug/nodeDockerResolver.ts:47 | filtering keeps the order of the exposed ports |
| ResolverSteps.ChooseApp | src/debug/javaDockerResolver.ts:51-55 | none means unset; exactly one is taken with no prompt; several give one quick pick of all candidates, an app port is chosen exactly when the pick is a valid index, and then it is the picked candidate |
| ResolverSteps.FirstReference | src/debug/javaDockerResolver.ts:57-58 | the leftmost position that starts `$NAME` or `${NAME}`, with no earlier one |
| ResolverSteps.WordRun | src/debug/javaDockerResolver.ts:58 | greedy `\w+`: the longest prefix of word characters |
| ResolverSteps.VariableReference | src/debug/javaDockerResolver.ts:57-58 | group 1 of the variable pattern: absent exactly when no position starts a reference, otherwise a non-empty run of word characters |
| ResolverSteps.ReferenceWithoutBraces | src/debug/javaDockerResolver.ts:57-58 | in `a + "$" + NAME + rest`, with no reference starting in `a` and `rest` not going on with a word character, the captured name is exactly NAME |
| ResolverSteps.ReferenceWithBraces | src/debug/javaDockerResolver.ts:57-58 | the same for `a + "${" + NAME + rest`, such as `${NAME}`: the closing brace ends the name |
| ResolverSteps.FirstReferenceAt | src/debug/javaDockerResolver.ts:57-58 | a reference at `k` with none before it is the leftmost one |
| ResolverSteps.WordRunUpTo | src/debug/javaDockerResolver.ts:58 | the word run stops at the first non-word character |
| ResolverSteps.NoDollarNoReference | src/debug/javaDockerResolver.ts:57 | a port without `$` never matches the variable pattern |
| ResolverSteps.PinVariable | src/debug/javaDockerResolver.ts:56-61 | a missing app port or one without a reference changes nothing; one with a reference to NAME becomes the default, and NAME is mapped to the default |
| ResolverSteps.ResolveApp | src/debug/javaDockerResolver.ts:48-62 | no exposed port leaves the app port unset and the overlay untouched; any app port is the default or an exposed, non-excluded port; the only prompt is the quick pick of the candidates |
| ResolverSteps.ResolveAppWrites | src/debug/javaDockerResolver.ts:56-61 | the app stage leaves the overlay alone or adds exactly one entry `NAME := default`, and then the app port is the default |
| ResolverSteps.ResolveAppCandidates | src/debug/javaDockerResolver.ts:48-55 | no candidate gives no app port and no prompt; one candidate free of references is taken with no prompt; several give exactly one quick pick of them, a valid pick of a candidate free of references makes it the app port, and a dismissed pick gives no app port |
| ResolverSteps.AppStageAfterInput | src/debug/javaDockerResolver.ts:36-55 | the same, for the whole trace of prompts, input boxes included |
| ResolverSteps.PickAppPort | src/debug/javaDockerResolver.ts:48-62 | the imperative app-port block gives the app port, the overlay afterwards and the prompts that `ResolveApp` specifies |
| ResolverSteps.SingleCandidateTaken | src/debug/javaDockerResolver.ts:51-52 | a single candidate without `$` is the app port, with no prompt and no overlay write |
| ResolverSteps.RowCommand | src/debug/javaDockerResolver.ts:85-89 | a row is skipped exactly when it has fewer columns than the header |
| ResolverSteps.FirstMatchFrom | src/debug/javaDockerResolver.ts:84-96 | the scan stops at a matching row, and every row before it is skipped or does not match; no result means no row matches |
| ResolverSteps.PsLines | src/debug/javaDockerResolver.ts:82 | the listing has at least one line, the header |
| ResolverSteps.HeaderWidth | src/debug/javaDockerResolver.ts:83 | the header has at least one column |
| ResolverSteps.FirstCommandMatch | src/debug/javaDockerResolver.ts:82-96 | the scan reports the first data row that is wide enough and whose command matches, with every data row before it skipped or not matching; no result means no data row matches |
| ResolverSteps.ListingScan | src/debug/javaDockerResolver.ts:82-96 | reading a listing back: the lines are its rows, the header width is the number of header columns, each row gives the command its columns carry, and the scan is the scan of those commands |
| ResolverSteps.ListingLines | src/debug/javaDockerResolver.ts:82-85 | a listing of padded rows splits into one line per row, and each line tokenises to that row's columns (a blank row to one empty column) |
| ResolverSteps.RowTextReadsBack | src/debug/javaDockerResolver.ts:85 | a row laid out with any padding is one line and tokenises to its columns |
| ResolverSteps.RowCommandOfColumns | src/debug/javaDockerResolver.ts:85-89 | a line that tokenises to a row's columns is skipped when they are fewer than the header's, and otherwise carries the columns from the last header column on, joined by single spaces |
| ResolverSteps.SingleRowListing | src/debug/javaDockerResolver.ts:82-96 | a listing whose first data row is `width - 1` fields and a matching command, whatever follows, gives row 1 and what it matched |
| ResolverSteps.FirstMatchAt | src/debug/javaDockerResolver.ts:84-96 | a matching row with no match before it is the scan's result |
| ResolverSteps.ListingRoundTrip | src/debug/javaDockerResolver.ts:82-96 | when data row N matches and every row before it is short or does not match, the scan picks row N |
| JavaDockerResolver.IsSupportedImage | src/debug/javaDockerResolver.ts:14-18 | an image is supported exactly when its name contains `java`, `openjdk` or `oracle` |
| JavaDockerResolver.AddressPort | src/debug/javaDockerResolver.ts:29-30 | the port is the text after the last `:` of the address value, which runs from the first `=` to the next one |
| JavaDockerResolver.AddressPortBare | src/debug/javaDockerResolver.ts:29-30 | `address=PORT` gives PORT |
| JavaDockerResolver.AddressPortWithHost | src/debug/javaDockerResolver.ts:29-30 | `address=HOST:PORT` gives PORT |
| JavaDockerResolver.MentionsJavaOpts | src/debug/javaDockerResolver.ts:31 | the sentinel matches exactly when the launch arguments contain `$JAVA_OPTS` or `${JAVA_OPTS` |
| JavaDockerResolver.LaunchStage | src/debug/javaDockerResolver.ts:27-34 | a debug port comes out exactly when there is an agent flag or a `JAVA_OPTS` reference; an agent flag gives its address port; the overlay is untouched or, with no agent flag, gets `JAVA_OPTS := default options` |
| JavaDockerResolver.FromFile | src/debug/javaDockerResolver.ts:20-65 | an app port only with a resolved debug port; at most an input box, first and exactly when the launch arguments gave no port, then a quick pick |
| JavaDockerResolver.ResolvePortsFromFile | src/debug/javaDockerResolver.ts:20-65 | the imperative resolution gives the ports, the overlay afterwards and the prompts that `FromFile` specifies |
| JavaDockerResolver.AgentFlagDecides | src/debug/javaDockerResolver.ts:27-30 | an agent flag with a non-empty port decides the debug port, and no input box is shown |
| JavaDockerResolver.JavaOptsSentinel | src/debug/javaDockerResolver.ts:31-34 | with no agent flag and a `JAVA_OPTS` reference, the debug port is 5005 and the overlay gets the default agent options; otherwise nothing is written at that stage |
| JavaDockerResolver.DefaultOptsAddress | src/debug/javaDockerResolver.ts:7-9 | the default agent options carry `address=5005`, at position 54 |
| JavaDockerResolver.DefaultAddressPort | src/debug/javaDockerResolver.ts:7-9 | the address `address=5005` of the default agent options gives back the default debug port 5005 |
| JavaDockerResolver.UnresolvedDebugStops | src/debug/javaDockerResolver.ts:43-45 | with no debug port the resolution stops: no app port, the overlay untouched (the sentinel always gives a port), and the exposed ports make no difference |
| JavaDockerResolver.TypedDebugPort | src/debug/javaDockerResolver.ts:36-42 | with nothing from the launch arguments, the input box (placeholder 5005) comes first and its trimmed, non-blank answer is the debug port |
| JavaDockerResolver.AppCandidates | src/debug/javaDockerResolver.ts:47-55 | the candidates are the exposed ports other than the debug port: none means no app port, one means that port with no quick pick, several mean a quick pick of them, a valid pick of a reference-free candidate is the app port, and a dismissed pick leaves it unset |
| JavaDockerResolver.AppPortOrigin | src/debug/javaDockerResolver.ts:47-62 | an app port is set only after the debug port, and is 9000 or an exposed port other than the debug port |
| JavaDockerResolver.AppVariablePinned | src/debug/javaDockerResolver.ts:56-61 | a chosen `$NAME` / `${NAME}` port becomes 9000, and NAME is mapped to 9000 in the overlay |
| JavaDockerResolver.NoPromptResolution | src/debug/javaDockerResolver.ts:20-65 | an agent flag with a port plus exactly one other exposed port without `$` resolve both ports with no prompt and no overlay write |
| JavaDockerResolver.LaunchArgsResolve | src/debug/javaDockerResolver.ts:27-62 | when the launch arguments give a debug port, no input box is shown and the result is that port plus the app-port stage |
| JavaDockerResolver.OverlayWrites | src/debug/javaDockerResolver.ts:31-61 | the overlay gets at most `JAVA_OPTS := default options` and then at most one `NAME := 9000`, which comes with app port 9000 |
| JavaDockerResolver.SentinelScenario | src/debug/javaDockerResolver.ts:31-52 | `${JAVA_OPTS}` with `EXPOSE 8080` gives debug 5005 and app 8080, with `JAVA_OPTS` set and no prompt |
| JavaDockerResolver.TypedPortScenario | src/debug/javaDockerResolver.ts:36-49 | no flag, 6006 typed in and no EXPOSE give debug 6006, no app port and a single input box |
| JavaDockerResolver.ScanDebugPort | src/debug/javaDockerResolver.ts:75-97 | a failed exec gives no port; otherwise a port comes out exactly when some data row matches |
| JavaDockerResolver.FromContainer | src/debug/javaDockerResolver.ts:67-108 | the app port is never set; a scanned port is kept with no prompt; otherwise one input box (placeholder 5005) and its trimmed answer |
| JavaDockerResolver.ResolvePortsFromContainer | src/debug/javaDockerResolver.ts:67-108 | the loop over the `ps -ef` rows gives what `FromContainer` specifies; the app port is never set; a failed exec goes straight to the input box |
| JavaDockerResolver.ContainerListing | src/debug/javaDockerResolver.ts:82-105 | on a listing of padded rows, the scan stops at the first data row whose command carries the agent flag: a non-empty address port is the debug port with no prompt; an empty one, or no such row, leads to the input box and its answer |
| JavaDockerResolver.SingleProcessRow | src/debug/javaDockerResolver.ts:76-96 | a listing whose first data row runs a matching Java command, however padded and whatever follows, gives that command's address port with no prompt |
| NodeDockerResolver.IsSupportedImage | src/debug/nodeDockerResolver.ts:11-13 | an image is supported exactly when its name contains `node` |
| NodeDockerResolver.HasValue | src/debug/nodeDockerResolver.ts:24 | `nodeCmd[3]` is truthy: the value group is present and not empty |
| NodeDockerResolver.FlagPort | src/debug/nodeDockerResolver.ts:24-29 | with no value, 9229 exactly when the flag reads `inspect` and 5858 otherwise; with a value, a colon-free suffix of it shorter than the value |
| NodeDockerResolver.FlagPortBare | src/debug/nodeDockerResolver.ts:27-28 | `--inspect=PORT` gives PORT |
| NodeDockerResolver.FlagPortWithHost | src/debug/nodeDockerResolver.ts:27-28 | `--inspect=HOST:PORT` gives PORT |
| NodeDockerResolver.FlagPortEmptyValue | src/debug/nodeDockerResolver.ts:27-28 | `--inspect=` gives the empty port |
| NodeDockerResolver.MatchedPort | src/debug/nodeDockerResolver.ts:22-30 | a port is found exactly when the flag pattern matches |
| NodeDockerResolver.FromFile | src/debug/nodeDockerResolver.ts:15-62 | an app port only with a resolved debug port; at most an input box, first and exactly when the flag gave no port, then a quick pick |
| NodeDockerResolver.ResolvePortsFromFile | src/debug/nodeDockerResolver.ts:15-62 | the imperative resolution gives the ports, the overlay afterwards and the prompts that `FromFile` specifies |
| NodeDockerResolver.FlagDecides | src/debug/nodeDockerResolver.ts:22-32 | a flag with a non-empty port decides the debug port, and no input box is shown |
| NodeDockerResolver.BareFlagDefaults | src/debug/nodeDockerResolver.ts:24-25 | bare `inspect` gives 9229, bare `debug` gives 5858, both without an input box |
| NodeDockerResolver.UnresolvedDebugStops | src/debug/nodeDockerResolver.ts:39-41 | with no debug port the resolution stops: no app port, the overlay untouched, and the exposed ports make no difference |
| NodeDockerResolver.TypedDebugPort | src/debug/nodeDockerResolver.ts:32-38 | with no port from the flag, the input box (placeholder 9229) comes first and its trimmed, non-blank answer is the debug port |
| NodeDockerResolver.AppCandidates | src/debug/nodeDockerResolver.ts:44-52 | the candidates are the exposed ports other than 9229, 5858 and the debug port: none means no app port, one means that port with no quick pick, several mean a quick pick, a valid pick of a reference-free candidate is the app port, and a dismissed pick leaves it unset |
| NodeDockerResolver.AppPortOrigin | src/debug/nodeDockerResolver.ts:43-59 | an app port is set only after the debug port, and is 9000 or an exposed port that is none of 9229, 5858 and the debug port |
| NodeDockerResolver.AppVariablePinned | src/debug/nodeDockerResolver.ts:53-58 | a chosen `$NAME` / `${NAME}` port becomes 9000, and NAME is mapped to 9000 in the overlay |
| NodeDockerResolver.OverlayWrites | src/debug/nodeDockerResolver.ts:53-58 | the only overlay write is one `NAME := 9000`, which comes with app port 9000 |
| NodeDockerResolver.ScanDebugPort | src/debug/nodeDockerResolver.ts:72-98 | a failed exec gives no port; otherwise a port comes out exactly when some data row matches |
| NodeDockerResolver.FromContainer | src/debug/nodeDockerResolver.ts:64-109 | the app port is never set; a scanned port is kept with no prompt; otherwise one input box (placeholder 9229) and its trimmed answer |
| NodeDockerResolver.ResolvePortsFromContainer | src/debug/nodeDockerResolver.ts:64-109 | the loop over the `ps -ef` rows gives what `FromContainer` specifies; the app port is never set; a failed exec goes straight to the input box |
| NodeDockerResolver.ContainerListing | src/debug/nodeDockerResolver.ts:79-106 | on a listing of padded rows, the scan stops at the first data row running `node` with a debug flag: a non-empty flag port is the debug port with no prompt; an empty one, or no such row, leads to the input box and its answer |
| NodeDockerResolver.SingleProcessRow | src/debug/nodeDockerResolver.ts:73-97 | a listing whose first data row runs a matching `node` command, however padded and whatever follows, gives that command's flag port with no prompt |

## Left out

- The regular-expression engine. The agent patterns (`javaDebugOptsRegExp`, `fullJavaDebugOptsRegExp`) and the Node.js flag patterns are taken as matcher functions constrained only by the shape of their captures. So the model does not decide which of several occurrences a pattern picks, how backtracking splits `.*`, or whether a capture is right for a particular text. For example, it does not decide that `--inspect-brk=9230` matches as a bare `inspect`.
- The `matches.length === 3` and `matches.length === 5` tests (`src/debug/javaDockerResolver.ts:91`, `src/debug/nodeDockerResolver.ts:88`) are always true for these patterns. They are not modelled.
- Building and running the `kubectl exec ... -- ps -ef` command (`src/debug/javaDockerResolver.ts:73-74`, `src/debug/nodeDockerResolver.ts:70-71`), including the un-interpolated `-c ${selectedContainer}` text. The model receives its outcome as an `ExecResult`.
- The VS Code windows and `async` / `await`. Prompts become answers supplied as parameters plus a trace of what was shown. A quick-pick answer is an index into the candidates.
- ResolverSteps.ChooseApp: a quick pick returning a string that is not one of the candidates is not modelled. An index out of range is read as a dismissed pick.
- The Dockerfile parser (`searchLaunchArgs`, `getExposedPorts`) and `src/debug/debugInterfaces.ts` are not part of this model. The parser is represented by the launch-argument text and the list of exposed ports.
- `src/debug/nodeDebugProvider.ts`, which chooses a resolver and uses its result, is not part of this model.
- JavaDockerResolver.NoPromptResolution: the example with `-agentlib:jdwp=...address=5005` and `EXPOSE 5005 8080` is this lemma for a capture `g` with `g[8..] == "5005"` (which gives 5005 by `AddressPortBare`) and the single remaining candidate 8080. It is not stated with those literals, because which capture the agent pattern yields is left to the matcher (see the first line of this section).
