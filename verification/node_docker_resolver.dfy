/** The Docker resolver for Node.js images: finds the inspector (or legacy
    debugger) port and the app port from a Dockerfile's launch arguments
    and EXPOSE entries, or from the command line of a running container's
    processes. */
module NodeDockerResolver {
  import opened JsText
  import opened DebugInterfaces
  import opened ResolverSteps

  const DefaultAppPort := "9000"
  /** The port `--inspect` listens on when given no value. */
  const InspectPort := "9229"
  /** The port the legacy `--debug` flag listens on when given no value. */
  const LegacyDebugPort := "5858"
  const FilePrompt := "Please specify debug port exposed by the Dockerfile (e.g. 9229)"
  const ContainerPrompt := "Please specify debug port exposed by the container (e.g. 9229)"

  /** A Node.js image: the name contains `node`, case-sensitively. */
  function IsSupportedImage(baseImage: string): (r: bool)
    ensures r <==> exists k :: OccursAt(baseImage, "node", k)
  {
    Contains(baseImage, "node")
  }

  // ---------------------------------------------------- the debug flag

  /** What the debug-flag patterns capture: the flag name, group
      `(debug|inspect)`, and the optional assignment, group `(=\S*)`. */
  datatype FlagMatch = FlagMatch(flag: string, assignment: Option<string>)

  /** What `(=\S*)` can capture: `=` and then no whitespace. */
  predicate IsAssignment(a: string) {
    |a| >= 1 && a[0] == '=' && NoWhitespace(a[1..])
  }

  /** A match of the Dockerfile pattern, which has no `i` flag: the flag
      is spelled exactly `debug` or `inspect`. */
  predicate IsFileMatch(m: FlagMatch) {
    && (m.flag == "debug" || m.flag == "inspect")
    && (m.assignment.Some? ==> IsAssignment(m.assignment.value))
  }

  /** A match of the running-process pattern, which has the `i` flag: the
      flag is `debug` or `inspect` in ASCII letters of either case. */
  predicate IsContainerMatch(m: FlagMatch) {
    && (CaselessLetters(m.flag, "debug") || CaselessLetters(m.flag, "inspect"))
    && (m.assignment.Some? ==> IsAssignment(m.assignment.value))
  }

  type FileMatch = m: FlagMatch | IsFileMatch(m) witness FlagMatch("debug", None)

  type ContainerMatch = m: FlagMatch | IsContainerMatch(m) witness FlagMatch("inspect", None)

  /** Whether JavaScript treats the assignment group as present: a missing
      group and an empty capture are both falsy. */
  predicate HasValue(m: FlagMatch) {
    m.assignment.Some? && m.assignment.value != ""
  }

  /** The debug port a flag match gives: with no value, 9229 when the flag
      reads exactly `inspect` and 5858 otherwise; with a value, what follows
      the last `:` after the leading `=`. */
  function FlagPort(m: FlagMatch): (port: string)
    ensures !HasValue(m) ==> port == InspectPort || port == LegacyDebugPort
    ensures !HasValue(m) ==> (port == InspectPort <==> m.flag == "inspect")
    ensures HasValue(m) ==> ':' !in port && |port| < |m.assignment.value|
    ensures HasValue(m) ==> port == m.assignment.value[|m.assignment.value| - |port|..]
  {
    if !HasValue(m) then
      if m.flag == "inspect" then InspectPort else LegacyDebugPort
    else
      var value := m.assignment.value;
      var port := LastSegment(value[1..], ':');
      assert value[|value| - |port|..] == value[1..][|value| - 1 - |port|..];
      port
  }

  /** `--inspect=PORT` (or `--debug=PORT`) gives PORT. */
  lemma FlagPortBare(flag: string, port: string)
    requires ':' !in port
    ensures FlagPort(FlagMatch(flag, Some("=" + port))) == port
  {
    assert ("=" + port)[1..] == port;
    LastSegmentWhole(port, ':');
  }

  /** `--inspect=HOST:PORT` gives PORT, the text after the last colon. */
  lemma FlagPortWithHost(flag: string, host: string, port: string)
    requires ':' !in port
    ensures FlagPort(FlagMatch(flag, Some("=" + host + ":" + port))) == port
  {
    assert ("=" + host + ":" + port)[1..] == host + [':'] + port;
    LastSegmentAfter(host, ':', port);
  }

  /** `--inspect=` gives the empty port, which leaves the debug port to the
      input box. */
  lemma FlagPortEmptyValue(flag: string)
    ensures FlagPort(FlagMatch(flag, Some("="))) == ""
  {
    assert "="[1..] == "";
  }

  /** The port a launch-argument or process match gives, if any. */
  function MatchedPort(m: Option<FlagMatch>): (port: Option<string>)
    ensures port.None? <==> m.None?
  {
    match m
    case None => None
    case Some(flag) => Some(FlagPort(flag))
  }

  // ----------------------------------------------- Dockerfile resolution

  /** A whole Dockerfile resolution. `matchFlag` stands for the search of
      the launch arguments with the debug-flag pattern, `input` for the
      answer to the input box and `pick` for the quick-pick choice. */
  function FromFile(parser: DockerParser, matchFlag: string -> Option<FileMatch>,
                    input: Option<string>, pick: Option<nat>, env: map<string, string>): (r: Resolution)
    ensures r.info.app.Some? ==> Resolved(r.info.debug)
    ensures PromptOrder(r.shown, !Resolved(MatchedPort(matchFlag(parser.launchArgs))))
  {
    var found := MatchedPort(matchFlag(parser.launchArgs));
    var (debug, asked) := AskDebugPort(found, input, FilePrompt, InspectPort);
    if !Resolved(debug) then
      AskThenPick(found, input, FilePrompt, InspectPort, []);
      Resolution(PortInfo(debug, None), env, asked)
    else
      var excluded := {InspectPort, LegacyDebugPort, debug.value};
      var (app, env2, picked) := ResolveApp(parser.exposedPorts, excluded, pick, env, DefaultAppPort);
      AskThenPick(found, input, FilePrompt, InspectPort, picked);
      Resolution(PortInfo(debug, app), env2, asked + picked)
  }

  /** `resolvePortsFromFile`: fills the port pair stage by stage and writes
      the default app port into the caller's environment overlay when the
      app port is a variable. */
  method ResolvePortsFromFile(parser: DockerParser, env: Env, matchFlag: string -> Option<FileMatch>,
                              input: Option<string>, pick: Option<nat>)
    returns (info: PortInfo, shown: seq<Prompt>)
    modifies env
    ensures Resolution(info, env.vars, shown) == FromFile(parser, matchFlag, input, pick, old(env.vars))
  {
    var debug: Option<string> := None;
    var app: Option<string> := None;
    shown := [];

    // Resolve the debug port.
    var nodeCmd := matchFlag(parser.launchArgs);
    if nodeCmd.Some? {
      if !HasValue(nodeCmd.value) {
        debug := Some(if nodeCmd.value.flag == "inspect" then InspectPort else LegacyDebugPort);
      } else {
        debug := Some(LastSegment(nodeCmd.value.assignment.value[1..], ':'));
      }
    }
    assert debug == MatchedPort(nodeCmd);
    // Otherwise ask for it.
    ghost var found := debug;
    if !Resolved(debug) {
      shown := [InputBox(FilePrompt, InspectPort)];
      debug := PromptAnswer(input);
    }
    assert (debug, shown) == AskDebugPort(found, input, FilePrompt, InspectPort);
    if !Resolved(debug) {
      info := PortInfo(debug, app);
      return;
    }

    // Resolve the app port.
    var excludes := {InspectPort, LegacyDebugPort, debug.value};
    var picked;
    app, picked := PickAppPort(parser.exposedPorts, excludes, pick, env, DefaultAppPort);
    shown := shown + picked;
    info := PortInfo(debug, app);
  }

  // ------------------------------------ properties of the Dockerfile path

  /** A debug flag whose port is not empty decides the debug port, and no
      input box is shown. */
  lemma FlagDecides(parser: DockerParser, matchFlag: string -> Option<FileMatch>,
                    input: Option<string>, pick: Option<nat>, env: map<string, string>)
    requires matchFlag(parser.launchArgs).Some?
    requires FlagPort(matchFlag(parser.launchArgs).value) != ""
    ensures var r := FromFile(parser, matchFlag, input, pick, env);
            && r.info.debug == Some(FlagPort(matchFlag(parser.launchArgs).value))
            && forall p :: p in r.shown ==> p.QuickPick?
  {
    var found := MatchedPort(matchFlag(parser.launchArgs));
    assert found == Some(FlagPort(matchFlag(parser.launchArgs).value));
    var (debug, asked) := AskDebugPort(found, input, FilePrompt, InspectPort);
    assert debug == found && asked == [];
    var excluded := {InspectPort, LegacyDebugPort, debug.value};
    var (app, env2, picked) := ResolveApp(parser.exposedPorts, excluded, pick, env, DefaultAppPort);
    assert FromFile(parser, matchFlag, input, pick, env) == Resolution(PortInfo(debug, app), env2, asked + picked);
    assert asked + picked == picked;
  }

  /** A bare flag gives the default of its kind: `inspect` 9229, `debug`
      5858, both without asking. */
  lemma BareFlagDefaults(parser: DockerParser, matchFlag: string -> Option<FileMatch>,
                         input: Option<string>, pick: Option<nat>, env: map<string, string>)
    requires matchFlag(parser.launchArgs).Some? && matchFlag(parser.launchArgs).value.assignment.None?
    ensures var r := FromFile(parser, matchFlag, input, pick, env);
            var flag := matchFlag(parser.launchArgs).value.flag;
            && (flag == "inspect" ==> r.info.debug == Some("9229"))
            && (flag == "debug" ==> r.info.debug == Some("5858"))
            && InputBox(FilePrompt, "9229") !in r.shown
  {
    var m := matchFlag(parser.launchArgs).value;
    assert FlagPort(m) != "";
    FlagDecides(parser, matchFlag, input, pick, env);
  }

  /** When neither the launch arguments nor the input box give a debug port,
      the resolution stops: no app port, the overlay untouched, and the
      exposed ports make no difference. */
  lemma UnresolvedDebugStops(parser: DockerParser, other: seq<string>, matchFlag: string -> Option<FileMatch>,
                             input: Option<string>, pick: Option<nat>, env: map<string, string>)
    requires !Resolved(FromFile(parser, matchFlag, input, pick, env).info.debug)
    ensures var r := FromFile(parser, matchFlag, input, pick, env);
            && r.info.app.None?
            && r.env == env
            && r == FromFile(parser.(exposedPorts := other), matchFlag, input, pick, env)
  {
  }

  /** The input box: shown when the flag gives no port; a missing or
      all-whitespace answer leaves the debug port unresolved, anything else
      is taken trimmed. */
  lemma TypedDebugPort(parser: DockerParser, matchFlag: string -> Option<FileMatch>,
                       input: Option<string>, pick: Option<nat>, env: map<string, string>)
    requires !Resolved(MatchedPort(matchFlag(parser.launchArgs)))
    ensures var r := FromFile(parser, matchFlag, input, pick, env);
            && r.shown[0] == InputBox(FilePrompt, "9229")
            && (Resolved(r.info.debug) <==> input.Some? && !AllWhitespace(input.value))
            && (Resolved(r.info.debug) ==> r.info.debug.value == Trim(input.value))
  {
  }

  /** The app port, once the debug port is known: the candidates are the
      exposed ports other than 9229, 5858 and the debug port; exactly one is
      taken with no quick pick, none leaves the app port unset, several are
      offered in a quick pick. */
  lemma AppCandidates(parser: DockerParser, matchFlag: string -> Option<FileMatch>,
                      input: Option<string>, pick: Option<nat>, env: map<string, string>)
    requires Resolved(FromFile(parser, matchFlag, input, pick, env).info.debug)
    ensures var r := FromFile(parser, matchFlag, input, pick, env);
            var c := ExcludePorts(parser.exposedPorts, {"9229", "5858", r.info.debug.value});
            && (|c| == 0 ==> r.info.app.None? && QuickPick(c, AppPickPlaceHolder) !in r.shown)
            && (|c| == 1 && VariableReference(c[0]).None? ==>
                  r.info.app == Some(c[0]) && forall p :: p in r.shown ==> !p.QuickPick?)
            && (|c| > 1 ==> QuickPick(c, AppPickPlaceHolder) in r.shown)
            && (|c| > 1 && pick.None? ==> r.info.app.None?)
            && (|c| > 1 && pick.Some? && pick.value < |c| && VariableReference(c[pick.value]).None? ==>
                  r.info.app == Some(c[pick.value]))
  {
    var found := MatchedPort(matchFlag(parser.launchArgs));
    var (debug, asked) := AskDebugPort(found, input, FilePrompt, InspectPort);
    var r := FromFile(parser, matchFlag, input, pick, env);
    assert Resolved(debug);
    var excluded := {InspectPort, LegacyDebugPort, debug.value};
    var (app, env2, picked) := ResolveApp(parser.exposedPorts, excluded, pick, env, DefaultAppPort);
    assert r == Resolution(PortInfo(debug, app), env2, asked + picked);
    AppStageAfterInput(asked, parser.exposedPorts, excluded, pick, env, DefaultAppPort);
  }


  /** Whatever app port comes out is the pinned default or an exposed port
      that is neither a default debug port nor the debug port. */
  lemma AppPortOrigin(parser: DockerParser, matchFlag: string -> Option<FileMatch>,
                      input: Option<string>, pick: Option<nat>, env: map<string, string>)
    ensures var r := FromFile(parser, matchFlag, input, pick, env);
            r.info.app.Some? ==>
              Resolved(r.info.debug)
              && (r.info.app.value == "9000"
                  || (r.info.app.value in parser.exposedPorts
                      && r.info.app.value !in {"9229", "5858", r.info.debug.value}))
  {
  }

  /** A chosen app port holding `$NAME` or `${NAME}` is pinned: the overlay
      maps NAME to 9000 and the app port becomes 9000. */
  lemma AppVariablePinned(parser: DockerParser, matchFlag: string -> Option<FileMatch>,
                          input: Option<string>, pick: Option<nat>, env: map<string, string>, name: string)
    requires var r := FromFile(parser, matchFlag, input, pick, env);
             && Resolved(r.info.debug) && parser.exposedPorts != []
             && var excluded := {"9229", "5858", r.info.debug.value};
                var chosen := ChooseApp(ExcludePorts(parser.exposedPorts, excluded), pick).0;
                chosen.Some? && VariableReference(chosen.value) == Some(name)
    ensures var r := FromFile(parser, matchFlag, input, pick, env);
            r.info.app == Some("9000") && name in r.env && r.env[name] == "9000"
  {
  }

  /** The only write to the overlay is the pinned app-port variable. */
  lemma OverlayWrites(parser: DockerParser, matchFlag: string -> Option<FileMatch>,
                      input: Option<string>, pick: Option<nat>, env: map<string, string>)
    ensures var r := FromFile(parser, matchFlag, input, pick, env);
            r.env == env || (r.info.app == Some("9000") && exists name :: name in r.env && r.env == env[name := "9000"])
  {
    var found := MatchedPort(matchFlag(parser.launchArgs));
    var (debug, asked) := AskDebugPort(found, input, FilePrompt, InspectPort);
    if Resolved(debug) {
      var excluded := {InspectPort, LegacyDebugPort, debug.value};
      var (app, env2, picked) := ResolveApp(parser.exposedPorts, excluded, pick, env, DefaultAppPort);
      assert FromFile(parser, matchFlag, input, pick, env) == Resolution(PortInfo(debug, app), env2, asked + picked);
      ResolveAppWrites(parser.exposedPorts, excluded, pick, env, DefaultAppPort);
    }
  }

  // ---------------------------------------- running-container resolution

  /** The debug port that a `ps -ef` listing gives: none when the exec
      failed; otherwise the port of the first row whose command the
      running-process pattern matches. */
  function ScanDebugPort(exec: ExecResult, matchFull: string -> Option<ContainerMatch>): (port: Option<string>)
    ensures exec.code != 0 ==> port.None?
    ensures port.Some? <==> exec.code == 0 && FirstCommandMatch(exec.stdout, matchFull).Some?
  {
    if exec.code != 0 then None
    else match FirstCommandMatch(exec.stdout, matchFull)
      case None => None
      case Some((_, m)) => Some(FlagPort(m))
  }

  /** A whole running-container resolution: the scan, then the input box
      when it gave nothing. The app port is never set. */
  function FromContainer(exec: ExecResult, matchFull: string -> Option<ContainerMatch>, input: Option<string>)
    : (r: (PortInfo, seq<Prompt>))
    ensures r.0.app.None?
    ensures Resolved(ScanDebugPort(exec, matchFull)) ==> r == (PortInfo(ScanDebugPort(exec, matchFull), None), [])
    ensures !Resolved(ScanDebugPort(exec, matchFull)) ==>
              r == (PortInfo(PromptAnswer(input), None), [InputBox(ContainerPrompt, "9229")])
  {
    var (debug, shown) := AskDebugPort(ScanDebugPort(exec, matchFull), input, ContainerPrompt, InspectPort);
    (PortInfo(debug, None), shown)
  }

  /** `resolvePortsFromContainer`: scans the rows of `ps -ef` for the first
      Node.js command with a debug flag, skipping rows shorter than the
      header, and falls back to the input box. */
  method ResolvePortsFromContainer(exec: ExecResult, matchFull: string -> Option<ContainerMatch>, input: Option<string>)
    returns (info: PortInfo, shown: seq<Prompt>)
    ensures (info, shown) == FromContainer(exec, matchFull, input)
    ensures info.app.None?
    ensures exec.code != 0 ==> shown == [InputBox(ContainerPrompt, "9229")] && info.debug == PromptAnswer(input)
  {
    var debug: Option<string> := None;
    if exec.code == 0 {
      var ps := Split(exec.stdout, '\n');
      var totalCol := |Tokens(ps[0])|;
      ghost var cmds := RowCommands(ps, totalCol);
      ghost var first := FirstMatchFrom(cmds, matchFull, 1);
      assert FirstCommandMatch(exec.stdout, matchFull) == first;
      for i := 1 to |ps|
        invariant debug.None?
        invariant FirstMatchFrom(cmds, matchFull, i) == first
      {
        var cols := Tokens(ps[i]);
        if |cols| < totalCol {
          assert cmds[i].None?;
          continue;
        }
        var cmd := Join(cols[totalCol - 1..], " ");
        assert cmds[i] == Some(cmd);
        var matches := matchFull(cmd);
        if matches.Some? {
          assert first == Some((i, matches.value));
          if !HasValue(matches.value) {
            debug := Some(if matches.value.flag == "inspect" then InspectPort else LegacyDebugPort);
          } else {
            debug := Some(LastSegment(matches.value.assignment.value[1..], ':'));
          }
          assert debug == Some(FlagPort(matches.value));
          break;
        }
      }
      assert debug.None? ==> first.None?;
    }
    assert debug == ScanDebugPort(exec, matchFull);
    shown := [];
    if !Resolved(debug) {
      shown := [InputBox(ContainerPrompt, InspectPort)];
      debug := PromptAnswer(input);
    }
    info := PortInfo(debug, None);
  }

  /** A listing laid out row by row: the scan stops at the first data row
      whose command runs `node` with a debug flag; its port is the debug
      port when not empty, and otherwise (or when there is no such row) the
      input box is shown and its answer taken. */
  lemma ContainerListing(rows: seq<RowLayout>, matchFull: string -> Option<ContainerMatch>, input: Option<string>)
    requires |rows| >= 1
    requires AllLaidOut(rows)
    ensures var r := FromContainer(ExecResult(0, Listing(rows)), matchFull, input);
            var asked := (PortInfo(PromptAnswer(input), None), [InputBox(ContainerPrompt, "9229")]);
            match FirstMatchFrom(ListedCommands(rows), matchFull, 1)
            case Some((_, m)) =>
              if FlagPort(m) != "" then r == (PortInfo(Some(FlagPort(m)), None), []) else r == asked
            case None => r == asked
  {
    ListingScan(rows, matchFull);
  }

  /** A listing whose first data row is `width - 1` fields followed by a
      command the running-process pattern matches (such as `root 1 0 0
      05:49 ? 00:00:00 node --inspect=9229 index.js` under an eight-column
      header), however its columns are padded and whatever rows follow,
      gives that command's port and shows no prompt. */
  lemma SingleProcessRow(rows: seq<RowLayout>, fields: seq<string>, command: seq<string>,
                         matchFull: string -> Option<ContainerMatch>, input: Option<string>, m: ContainerMatch)
    requires |rows| >= 2 && AllLaidOut(rows)
    requires rows[1].tokens == fields + command && |fields| == |Columns(rows[0])| - 1 && command != []
    requires matchFull(Join(command, " ")) == Some(m) && FlagPort(m) != ""
    ensures FromContainer(ExecResult(0, Listing(rows)), matchFull, input)
            == (PortInfo(Some(FlagPort(m)), None), [])
  {
    SingleRowListing(rows, fields, command, matchFull, m);
  }
}
