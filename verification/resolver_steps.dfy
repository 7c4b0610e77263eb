/** The stages that both Docker resolvers perform in the same way: reading
    a typed-in port, filtering the exposed ports down to app-port
    candidates, choosing among them, pinning a `$NAME` / `${NAME}` app port
    to a default, and scanning the rows of a `ps -ef` listing. */
module ResolverSteps {
  import opened JsText
  import opened DebugInterfaces

  const AppPickPlaceHolder := "Please select the app port exposed at Dockerfile"

  // ------------------------------------------------------- typed-in port

  /** `input ? input.trim() : null` for the answer of an input box
      (`None` when the box was dismissed). */
  function PromptAnswer(input: Option<string>): (port: Option<string>)
    ensures Resolved(port) <==> input.Some? && !AllWhitespace(input.value)
    ensures port.Some? ==> input.Some? && port.value == Trim(input.value)
    ensures input.Some? && input.value != "" ==> port.Some?
  {
    if input.Some? && input.value != "" then Some(Trim(input.value)) else None
  }

  /** The debug port after the input-box fallback: a port already resolved
      is kept with no prompt; otherwise the input box is shown and its
      trimmed answer taken. */
  function AskDebugPort(found: Option<string>, input: Option<string>, prompt: string, placeHolder: string)
    : (r: (Option<string>, seq<Prompt>))
    ensures Resolved(found) ==> r == (found, [])
    ensures !Resolved(found) ==> r.1 == [InputBox(prompt, placeHolder)]
    ensures Resolved(r.0) <==> Resolved(found) || (input.Some? && !AllWhitespace(input.value))
  {
    if Resolved(found) then (found, []) else (PromptAnswer(input), [InputBox(prompt, placeHolder)])
  }

  /** The prompts of a Dockerfile resolution: at most one input box, shown
      first and exactly when `asked`, then at most one quick pick. */
  predicate PromptOrder(shown: seq<Prompt>, asked: bool) {
    && |shown| <= 2
    && forall i :: 0 <= i < |shown| ==> (shown[i].InputBox? <==> i == 0 && asked)
  }

  /** The input-box fallback followed by the app-port stage shows its
      prompts in that order. */
  lemma AskThenPick(found: Option<string>, input: Option<string>, prompt: string, placeHolder: string,
                    picked: seq<Prompt>)
    requires |picked| <= 1 && forall p :: p in picked ==> p.QuickPick?
    ensures var asked := AskDebugPort(found, input, prompt, placeHolder).1;
            PromptOrder(asked, !Resolved(found)) && PromptOrder(asked + picked, !Resolved(found))
  {
    var asked := AskDebugPort(found, input, prompt, placeHolder).1;
    var shown := asked + picked;
    forall i | 0 <= i < |shown|
      ensures shown[i].InputBox? <==> i == 0 && !Resolved(found)
    {
      if i >= |asked| {
        assert shown[i] == picked[i - |asked|] && shown[i] in picked;
      }
    }
  }

  // ------------------------------------------------------ app candidates

  /** `ports.filter(p => excluded does not contain p)`: the exposed ports,
      in their order, without the excluded ones. */
  function ExcludePorts(ports: seq<string>, excluded: set<string>): (candidates: seq<string>)
    ensures forall i :: 0 <= i < |candidates| ==> candidates[i] in ports && candidates[i] !in excluded
  {
    if ports == [] then []
    else
      var rest := ExcludePorts(ports[1..], excluded);
      if ports[0] in excluded then rest else [ports[0]] + rest
  }

  /** Every exposed port that is not excluded stays a candidate, as often
      as it is exposed. */
  lemma {:induction false} ExcludePortsCount(ports: seq<string>, excluded: set<string>)
    ensures var candidates := ExcludePorts(ports, excluded);
            forall p :: multiset(candidates)[p] == if p in excluded then 0 else multiset(ports)[p]
    decreases |ports|
  {
    if ports != [] {
      ExcludePortsCount(ports[1..], excluded);
      assert ports == [ports[0]] + ports[1..];
    }
  }

  /** Filtering keeps the order: the candidates of a concatenation are the
      candidates of the first part followed by those of the second. */
  lemma {:induction false} ExcludePortsAppend(a: seq<string>, b: seq<string>, excluded: set<string>)
    ensures ExcludePorts(a + b, excluded) == ExcludePorts(a, excluded) + ExcludePorts(b, excluded)
    decreases |a|
  {
    if a == [] {
      assert a + b == b;
    } else {
      var ab := a + b;
      assert ab != [] && ab[0] == a[0] && ab[1..] == a[1..] + b;
      ExcludePortsAppend(a[1..], b, excluded);
    }
  }

  /** The app port from the candidates: a single candidate is taken with no
      prompt; several are offered in a quick pick and the item the user
      picks (by index; `None` is a dismissed pick) is taken; none leaves it
      unset. */
  function ChooseApp(candidates: seq<string>, pick: Option<nat>): (r: (Option<string>, seq<Prompt>))
    ensures r.0.Some? ==> r.0.value in candidates
    ensures |candidates| == 0 ==> r == (None, [])
    ensures |candidates| == 1 ==> r == (Some(candidates[0]), [])
    ensures |candidates| > 1 ==> r.1 == [QuickPick(candidates, AppPickPlaceHolder)]
    ensures |candidates| > 1 ==> (r.0.Some? <==> pick.Some? && pick.value < |candidates|)
    ensures |candidates| > 1 && pick.Some? && pick.value < |candidates| ==> r.0 == Some(candidates[pick.value])
  {
    if |candidates| == 1 then (Some(candidates[0]), [])
    else if |candidates| > 1 then
      (if pick.Some? && pick.value < |candidates| then Some(candidates[pick.value]) else None,
       [QuickPick(candidates, AppPickPlaceHolder)])
    else (None, [])
  }

  // ------------------------------------------------ `$NAME` and `${NAME}`

  /** Position `k` starts a match of `/\$\{?(\w+)\}?/`: a `$`, optionally a
      `{`, then a word character. */
  predicate StartsReference(s: string, k: int) {
    && 0 <= k < |s| && s[k] == '$'
    && ((k + 1 < |s| && IsWordChar(s[k + 1]))
        || (k + 2 < |s| && s[k + 1] == '{' && IsWordChar(s[k + 2])))
  }

  /** Where the captured name of a reference starting at `k` begins. */
  function NameStart(s: string, k: int): (j: nat)
    requires StartsReference(s, k)
    ensures j < |s| && IsWordChar(s[j])
  {
    if s[k + 1] == '{' then k + 2 else k + 1
  }

  /** The leftmost position at or after `from` that starts a reference. */
  function FirstReference(s: string, from: nat): (k: Option<nat>)
    ensures k.Some? ==> from <= k.value && StartsReference(s, k.value)
    ensures k.Some? ==> forall i :: from <= i < k.value ==> !StartsReference(s, i)
    ensures k.None? ==> forall i :: from <= i ==> !StartsReference(s, i)
    decreases |s| - from
  {
    if from >= |s| then None
    else if StartsReference(s, from) then Some(from)
    else FirstReference(s, from + 1)
  }

  /** The longest run of word characters at the start of `t` (greedy `\w+`). */
  function WordRun(t: string): (w: string)
    ensures |w| <= |t| && w == t[..|w|]
    ensures forall i :: 0 <= i < |w| ==> IsWordChar(w[i])
    ensures |w| < |t| ==> !IsWordChar(t[|w|])
  {
    if t == [] || !IsWordChar(t[0]) then []
    else
      var w := WordRun(t[1..]);
      assert t[..|w| + 1] == [t[0]] + t[1..][..|w|];
      [t[0]] + w
  }

  /** Group 1 of `s.match(/\$\{?(\w+)\}?/)`: the name in the first
      `$NAME` or `${NAME}` reference of `s`, or `None` when the pattern
      does not match. */
  function VariableReference(s: string): (name: Option<string>)
    ensures name.None? <==> forall i :: 0 <= i < |s| ==> !StartsReference(s, i)
    ensures name.Some? ==> name.value != [] && forall i :: 0 <= i < |name.value| ==> IsWordChar(name.value[i])
  {
    match FirstReference(s, 0)
    case None => None
    case Some(k) =>
      var j := NameStart(s, k);
      Some(WordRun(s[j..]))
  }

  /** `$NAME` names NAME: in `a + "$" + name + rest`, where no reference
      starts inside `a` and `rest` does not go on with a word character,
      the reference found is the one at the `$` and its name is exactly
      `name`. */
  lemma ReferenceWithoutBraces(a: string, name: string, rest: string)
    requires name != [] && forall i :: 0 <= i < |name| ==> IsWordChar(name[i])
    requires rest == [] || !IsWordChar(rest[0])
    requires forall i :: 0 <= i < |a| ==> !StartsReference(a + "$" + name + rest, i)
    ensures VariableReference(a + "$" + name + rest) == Some(name)
  {
    var s := a + "$" + name + rest;
    var k := |a|;
    assert s[k] == '$' && s[k + 1] == name[0];
    assert StartsReference(s, k);
    FirstReferenceAt(s, k);
    assert NameStart(s, k) == k + 1;
    assert s[k + 1..] == name + rest;
    WordRunUpTo(name, rest);
  }

  /** `${NAME}` names NAME: in `a + "${" + name + rest`, where no reference
      starts inside `a` and `rest` (typically `}` and more) does not go on
      with a word character, the name is exactly `name`. */
  lemma ReferenceWithBraces(a: string, name: string, rest: string)
    requires name != [] && forall i :: 0 <= i < |name| ==> IsWordChar(name[i])
    requires rest == [] || !IsWordChar(rest[0])
    requires forall i :: 0 <= i < |a| ==> !StartsReference(a + "${" + name + rest, i)
    ensures VariableReference(a + "${" + name + rest) == Some(name)
  {
    var s := a + "${" + name + rest;
    var k := |a|;
    assert s[k] == '$' && s[k + 1] == '{' && s[k + 2] == name[0];
    assert StartsReference(s, k);
    FirstReferenceAt(s, k);
    assert NameStart(s, k) == k + 2;
    assert s[k + 2..] == name + rest;
    WordRunUpTo(name, rest);
  }

  /** The first reference is the one at `k` when none starts before it. */
  lemma FirstReferenceAt(s: string, k: nat)
    requires StartsReference(s, k)
    requires forall i :: 0 <= i < k ==> !StartsReference(s, i)
    ensures FirstReference(s, 0) == Some(k)
  {
    var f := FirstReference(s, 0);
    assert f.Some?;
    assert !(f.value < k);
    assert !(k < f.value);
  }

  lemma {:induction false} WordRunUpTo(w: string, rest: string)
    requires forall i :: 0 <= i < |w| ==> IsWordChar(w[i])
    requires rest == [] || !IsWordChar(rest[0])
    ensures WordRun(w + rest) == w
    decreases |w|
  {
    if w == [] {
      assert w + rest == rest;
    } else {
      assert (w + rest)[1..] == w[1..] + rest;
      WordRunUpTo(w[1..], rest);
      assert w == [w[0]] + w[1..];
    }
  }

  /** A port with no `$` in it is never a reference. */
  lemma NoDollarNoReference(s: string)
    requires '$' !in s
    ensures VariableReference(s) == None
  {
  }

  /** Pinning the app port: when it contains a `$NAME` or `${NAME}`
      reference, `env[NAME]` is set to the default and the app port becomes
      the default; otherwise neither changes. A missing app port is left
      alone (`test(null)` and `test(undefined)` are false). */
  function PinVariable(app: Option<string>, env: map<string, string>, default: string)
    : (r: (Option<string>, map<string, string>))
    ensures app.None? ==> r == (app, env)
    ensures app.Some? && VariableReference(app.value).None? ==> r == (app, env)
    ensures app.Some? && VariableReference(app.value).Some? ==>
              r == (Some(default), env[VariableReference(app.value).value := default])
  {
    if app.None? then (app, env)
    else match VariableReference(app.value)
      case None => (app, env)
      case Some(name) => (Some(default), env[name := default])
  }

  /** The app-port stage of a Dockerfile resolution: nothing happens when no
      port is exposed; otherwise the candidates are the exposed ports that
      are not excluded, one is chosen, and a variable reference is pinned. */
  function ResolveApp(exposed: seq<string>, excluded: set<string>, pick: Option<nat>,
                      env: map<string, string>, default: string)
    : (r: (Option<string>, map<string, string>, seq<Prompt>))
    ensures exposed == [] ==> r == (None, env, [])
    ensures r.0.Some? ==> r.0.value == default || (r.0.value in exposed && r.0.value !in excluded)
    ensures forall p :: p in r.2 ==> p == QuickPick(ExcludePorts(exposed, excluded), AppPickPlaceHolder)
    ensures |r.2| <= 1
  {
    if exposed == [] then (None, env, [])
    else
      var candidates := ExcludePorts(exposed, excluded);
      var (app, shown) := ChooseApp(candidates, pick);
      var (pinned, env') := PinVariable(app, env, default);
      (pinned, env', shown)
  }

  /** The app-port stage writes at most one overlay entry, the pinned
      variable, and then the app port is the default. */
  lemma ResolveAppWrites(exposed: seq<string>, excluded: set<string>, pick: Option<nat>,
                         env: map<string, string>, default: string)
    ensures var r := ResolveApp(exposed, excluded, pick, env, default);
            r.1 == env || (r.0 == Some(default) && exists name :: name in r.1 && r.1 == env[name := default])
  {
    if exposed != [] {
      var (chosen, _) := ChooseApp(ExcludePorts(exposed, excluded), pick);
      if chosen.Some? && VariableReference(chosen.value).Some? {
        var name := VariableReference(chosen.value).value;
        assert ResolveApp(exposed, excluded, pick, env, default).1 == env[name := default];
      }
    }
  }

  /** The app-port block of `resolvePortsFromFile`, run once the debug port
      is known: filters the exposed ports, takes or offers the candidates,
      and pins a variable app port through the overlay. */
  method PickAppPort(exposed: seq<string>, excluded: set<string>, pick: Option<nat>, env: Env, default: string)
    returns (app: Option<string>, picked: seq<Prompt>)
    modifies env
    ensures (app, env.vars, picked) == ResolveApp(exposed, excluded, pick, old(env.vars), default)
  {
    app := None;
    picked := [];
    if |exposed| > 0 {
      var possiblePorts := ExcludePorts(exposed, excluded);
      if |possiblePorts| == 1 {
        app := Some(possiblePorts[0]);
      } else if |possiblePorts| > 1 {
        picked := [QuickPick(possiblePorts, AppPickPlaceHolder)];
        app := if pick.Some? && pick.value < |possiblePorts| then Some(possiblePorts[pick.value]) else None;
      }
      assert (app, picked) == ChooseApp(possiblePorts, pick);
      ghost var chosen := app;
      // A variable app port is pinned through the environment.
      if app.Some? {
        var varName := VariableReference(app.value);
        if varName.Some? {
          env.vars := env.vars[varName.value := default];
          app := Some(default);
        }
      }
      assert (app, env.vars) == PinVariable(chosen, old(env.vars), default);
    }
  }

  /** The app-port stage by number of candidates: none leaves the app port
      unset with no prompt, one free of variable references is taken with no
      prompt, several are offered in one quick pick, the picked one (when
      free of variable references) becomes the app port, and a dismissed
      pick leaves it unset. */
  lemma ResolveAppCandidates(exposed: seq<string>, excluded: set<string>, pick: Option<nat>,
                             env: map<string, string>, default: string)
    ensures var r := ResolveApp(exposed, excluded, pick, env, default);
            var c := ExcludePorts(exposed, excluded);
            && (|c| == 0 ==> r.0.None? && r.2 == [])
            && (|c| == 1 && VariableReference(c[0]).None? ==> r.0 == Some(c[0]) && r.2 == [])
            && (|c| > 1 ==> r.2 == [QuickPick(c, AppPickPlaceHolder)])
            && (|c| > 1 && pick.None? ==> r.0.None?)
            && (|c| > 1 && pick.Some? && pick.value < |c| && VariableReference(c[pick.value]).None? ==>
                  r.0 == Some(c[pick.value]))
  {
    var c := ExcludePorts(exposed, excluded);
    if exposed != [] {
      var (chosen, shown) := ChooseApp(c, pick);
      assert ResolveApp(exposed, excluded, pick, env, default).2 == shown;
      assert ResolveApp(exposed, excluded, pick, env, default).0 == PinVariable(chosen, env, default).0;
    }
  }

  /** The same, for the prompts of a whole resolution: input boxes shown
      before the app-port stage never hide or fake its quick pick. */
  lemma AppStageAfterInput(asked: seq<Prompt>, exposed: seq<string>, excluded: set<string>, pick: Option<nat>,
                           env: map<string, string>, default: string)
    requires forall p :: p in asked ==> p.InputBox?
    ensures var r := ResolveApp(exposed, excluded, pick, env, default);
            var c := ExcludePorts(exposed, excluded);
            var shown := asked + r.2;
            && (|c| == 0 ==> r.0.None? && QuickPick(c, AppPickPlaceHolder) !in shown)
            && (|c| == 1 && VariableReference(c[0]).None? ==>
                  r.0 == Some(c[0]) && forall p :: p in shown ==> !p.QuickPick?)
            && (|c| > 1 ==> QuickPick(c, AppPickPlaceHolder) in shown)
            && (|c| > 1 && pick.None? ==> r.0.None?)
            && (|c| > 1 && pick.Some? && pick.value < |c| && VariableReference(c[pick.value]).None? ==>
                  r.0 == Some(c[pick.value]))
  {
    ResolveAppCandidates(exposed, excluded, pick, env, default);
    var picked := ResolveApp(exposed, excluded, pick, env, default).2;
    assert picked == [] ==> asked + picked == asked;
    assert picked != [] ==> (asked + picked)[|asked|] == picked[0];
  }

  /** A single candidate with no variable reference is taken as it is: no
      quick pick, and the overlay is left alone. */
  lemma SingleCandidateTaken(exposed: seq<string>, excluded: set<string>, pick: Option<nat>,
                             env: map<string, string>, default: string, port: string)
    requires ExcludePorts(exposed, excluded) == [port] && '$' !in port
    ensures ResolveApp(exposed, excluded, pick, env, default) == (Some(port), env, [])
  {
    NoDollarNoReference(port);
  }

  // --------------------------------------------------- `ps -ef` listings

  /** The command of one `ps -ef` row when the header has `width` columns:
      rows with fewer tokens are skipped; otherwise the tokens from column
      `width - 1` on, joined by single spaces. */
  function RowCommand(row: string, width: nat): (cmd: Option<string>)
    requires width >= 1
    ensures cmd.None? <==> |Tokens(row)| < width
  {
    var cols := Tokens(row);
    if |cols| < width then None else Some(Join(cols[width - 1..], " "))
  }

  /** The commands of the data rows of a listing, one per line: `None` for
      a row too short to hold one. */
  function RowCommands(lines: seq<string>, width: nat): (cmds: seq<Option<string>>)
    requires width >= 1
    ensures |cmds| == |lines|
    ensures forall i :: 0 <= i < |lines| ==> cmds[i] == RowCommand(lines[i], width)
  {
    seq(|lines|, i requires 0 <= i < |lines| => RowCommand(lines[i], width))
  }

  /** What the debug-flag pattern makes of a row's command, if it has one. */
  function CommandMatch<T>(cmd: Option<string>, matcher: string -> Option<T>): Option<T> {
    match cmd
    case None => None
    case Some(c) => matcher(c)
  }

  /** The first row at or after `from` whose command the pattern matches,
      with what it matched. */
  function FirstMatchFrom<T>(cmds: seq<Option<string>>, matcher: string -> Option<T>, from: nat)
    : (r: Option<(nat, T)>)
    ensures r.Some? ==> from <= r.value.0 < |cmds| && CommandMatch(cmds[r.value.0], matcher) == Some(r.value.1)
    ensures r.Some? ==> forall j :: from <= j < r.value.0 ==> CommandMatch(cmds[j], matcher).None?
    ensures r.None? ==> forall j :: from <= j < |cmds| ==> CommandMatch(cmds[j], matcher).None?
    decreases |cmds| - from
  {
    if from >= |cmds| then None
    else match CommandMatch(cmds[from], matcher)
      case Some(t) => Some((from, t))
      case None => FirstMatchFrom(cmds, matcher, from + 1)
  }

  /** The lines of a `ps -ef` output (`stdout.split("\n")`), never empty. */
  function PsLines(stdout: string): (lines: seq<string>)
    ensures |lines| >= 1
  {
    Split(stdout, '\n')
  }

  /** The number of columns of the header line, at least one. */
  function HeaderWidth(lines: seq<string>): (w: nat)
    requires |lines| >= 1
    ensures w >= 1
  {
    |Tokens(lines[0])|
  }

  /** The scan of a `ps -ef` output: the first data row (after the header)
      that is wide enough and whose command the pattern matches. */
  function FirstCommandMatch<T>(stdout: string, matcher: string -> Option<T>): (r: Option<(nat, T)>)
    ensures var lines := PsLines(stdout);
            r.Some? ==> 1 <= r.value.0 < |lines|
                        && CommandMatch(RowCommand(lines[r.value.0], HeaderWidth(lines)), matcher) == Some(r.value.1)
    ensures var lines := PsLines(stdout);
            r.Some? ==> forall j :: 1 <= j < r.value.0 ==> CommandMatch(RowCommand(lines[j], HeaderWidth(lines)), matcher).None?
    ensures var lines := PsLines(stdout);
            r.None? ==> forall j :: 1 <= j < |lines| ==> CommandMatch(RowCommand(lines[j], HeaderWidth(lines)), matcher).None?
  {
    var lines := PsLines(stdout);
    FirstMatchFrom(RowCommands(lines, HeaderWidth(lines)), matcher, 1)
  }

  /** How one line of a `ps -ef` listing is laid out: whitespace before the
      first column, the column tokens with a run of whitespace between each
      two, and whitespace after the last, none of it a line break (so a
      `\r` before the `\n` counts as trailing whitespace). A row without
      tokens is a blank line. */
  datatype RowLayout = RowLayout(lead: string, tokens: seq<string>, seps: seq<string>, trail: string)

  /** Whitespace that stays within one line. */
  predicate IsPadding(w: string) {
    forall i :: 0 <= i < |w| ==> IsWhitespace(w[i]) && w[i] != '\n'
  }

  predicate WellLaidOut(row: RowLayout) {
    && IsPadding(row.lead) && IsPadding(row.trail) && IsTokenList(row.tokens)
    && |row.seps| == (if row.tokens == [] then 0 else |row.tokens| - 1)
    && forall k :: 0 <= k < |row.seps| ==> row.seps[k] != "" && IsPadding(row.seps[k])
  }

  predicate AllLaidOut(rows: seq<RowLayout>) {
    forall i :: 0 <= i < |rows| ==> WellLaidOut(rows[i])
  }

  /** The text of a row. */
  function RowText(row: RowLayout): string
    requires WellLaidOut(row)
  {
    if row.tokens == [] then row.lead + row.trail
    else row.lead + Interleave(row.tokens, row.seps) + row.trail
  }

  /** The columns a row stands for: its tokens, or the one empty column of
      a blank line. */
  function Columns(row: RowLayout): (cols: seq<string>)
    ensures |cols| >= 1
  {
    if row.tokens == [] then [""] else row.tokens
  }

  /** A row's text is one line, and tokenising it gives back its columns,
      whatever whitespace surrounds and separates them. */
  lemma RowTextReadsBack(row: RowLayout)
    requires WellLaidOut(row)
    ensures '\n' !in RowText(row)
    ensures Tokens(RowText(row)) == Columns(row)
  {
    var text := RowText(row);
    if row.tokens == [] {
      assert forall i :: 0 <= i < |text| ==> text[i] == if i < |row.lead| then row.lead[i] else row.trail[i - |row.lead|];
    } else {
      InterleaveOneLine(row.tokens, row.seps);
      TokensOfPadded(row.lead, row.tokens, row.seps, row.trail);
    }
  }

  /** The text of a process listing: one line per row, the first row being
      the header. */
  function Listing(rows: seq<RowLayout>): string
    requires AllLaidOut(rows)
  {
    Join(seq(|rows|, i requires 0 <= i < |rows| && WellLaidOut(rows[i]) => RowText(rows[i])), "\n")
  }

  /** The command each row of a listing carries when the header has
      `|Columns(rows[0])|` columns: the columns from the last header column
      on, or `None` for a row with fewer columns. */
  function ListedCommands(rows: seq<RowLayout>): seq<Option<string>>
    requires |rows| >= 1
  {
    var w := |Columns(rows[0])|;
    seq(|rows|, i requires 0 <= i < |rows| =>
      var cols := Columns(rows[i]);
      if |cols| < w then None else Some(Join(cols[w - 1..], " ")))
  }

  /** Reading a listing back: the lines are its rows, the header width is
      the number of header columns, and every row gives the command it was
      laid out with, so the scan finds the first data row whose command
      matches. */
  lemma ListingScan<T>(rows: seq<RowLayout>, matcher: string -> Option<T>)
    requires |rows| >= 1
    requires AllLaidOut(rows)
    ensures var lines := PsLines(Listing(rows));
            && |lines| == |rows|
            && HeaderWidth(lines) == |Columns(rows[0])|
            && RowCommands(lines, |Columns(rows[0])|) == ListedCommands(rows)
    ensures FirstCommandMatch(Listing(rows), matcher) == FirstMatchFrom(ListedCommands(rows), matcher, 1)
  {
    ListingLines(rows);
    var lines := PsLines(Listing(rows));
    var w := |Columns(rows[0])|;
    assert HeaderWidth(lines) == w;
    var cmds := RowCommands(lines, w);
    var expected := ListedCommands(rows);
    assert cmds == expected by {
      forall i | 0 <= i < |rows|
        ensures cmds[i] == expected[i]
      {
        RowCommandOfColumns(lines[i], rows[i], w);
      }
    }
    assert FirstCommandMatch(Listing(rows), matcher) == FirstMatchFrom(cmds, matcher, 1);
  }

  /** A line that tokenises to a row's columns carries that row's command. */
  lemma RowCommandOfColumns(line: string, row: RowLayout, w: nat)
    requires w >= 1 && Tokens(line) == Columns(row)
    ensures RowCommand(line, w) == if |Columns(row)| < w then None else Some(Join(Columns(row)[w - 1..], " "))
  {
  }

  /** The lines of a listing are its rows, each tokenising to its columns. */
  lemma ListingLines(rows: seq<RowLayout>)
    requires |rows| >= 1
    requires AllLaidOut(rows)
    ensures var lines := PsLines(Listing(rows));
            |lines| == |rows| && forall i :: 0 <= i < |rows| ==> Tokens(lines[i]) == Columns(rows[i])
  {
    var texts := seq(|rows|, i requires 0 <= i < |rows| && WellLaidOut(rows[i]) => RowText(rows[i]));
    forall i | 0 <= i < |rows|
      ensures '\n' !in texts[i] && Tokens(texts[i]) == Columns(rows[i])
    {
      RowTextReadsBack(rows[i]);
    }
    SplitJoin(texts, '\n');
  }

  /** The scan stops at the first matching row: if row `n` matches and no
      row from `from` up to it does, the scan reports row `n`. */
  lemma FirstMatchAt<T>(cmds: seq<Option<string>>, matcher: string -> Option<T>, from: nat, n: nat, t: T)
    requires from <= n < |cmds| && CommandMatch(cmds[n], matcher) == Some(t)
    requires forall j :: from <= j < n ==> CommandMatch(cmds[j], matcher).None?
    ensures FirstMatchFrom(cmds, matcher, from) == Some((n, t))
  {
  }

  /** Round trip through a listing: when data row `n` carries a command the
      pattern matches and every data row before it is too short or does not
      match, the scan picks row `n`. */
  lemma ListingRoundTrip<T>(rows: seq<RowLayout>, matcher: string -> Option<T>, n: nat, t: T)
    requires |rows| >= 1
    requires AllLaidOut(rows)
    requires 1 <= n < |rows|
    requires var w := |Columns(rows[0])|;
             |Columns(rows[n])| >= w && matcher(Join(Columns(rows[n])[w - 1..], " ")) == Some(t)
    requires var w := |Columns(rows[0])|;
             forall i :: 1 <= i < n && |Columns(rows[i])| >= w ==> matcher(Join(Columns(rows[i])[w - 1..], " ")).None?
    ensures FirstCommandMatch(Listing(rows), matcher) == Some((n, t))
  {
    var w := |Columns(rows[0])|;
    var cmds := ListedCommands(rows);
    assert CommandMatch(cmds[n], matcher) == Some(t);
    assert forall j :: 1 <= j < n ==> CommandMatch(cmds[j], matcher).None? by {
      forall j | 1 <= j < n
        ensures CommandMatch(cmds[j], matcher).None?
      {
        if |Columns(rows[j])| >= w {
          assert cmds[j] == Some(Join(Columns(rows[j])[w - 1..], " "));
        }
      }
    }
    FirstMatchAt(cmds, matcher, 1, n, t);
    ListingScan(rows, matcher);
  }

  /** A listing whose first data row is `width - 1` fields followed by a
      command the pattern matches, whatever rows follow it: the scan picks
      that row. */
  lemma SingleRowListing<T>(rows: seq<RowLayout>, fields: seq<string>, command: seq<string>,
                            matcher: string -> Option<T>, t: T)
    requires |rows| >= 2 && AllLaidOut(rows)
    requires rows[1].tokens == fields + command && |fields| == |Columns(rows[0])| - 1 && command != []
    requires matcher(Join(command, " ")) == Some(t)
    ensures FirstCommandMatch(Listing(rows), matcher) == Some((1, t))
  {
    assert Columns(rows[1])[|Columns(rows[0])| - 1..] == command;
    ListingRoundTrip(rows, matcher, 1, t);
  }
}
