/** The Docker resolver for Java images: finds the JDWP debug port (and the
    app port) from a Dockerfile's launch arguments and EXPOSE entries, or
    from the command line of a running container's processes. */
module JavaDockerResolver {
  import opened JsText
  import opened DebugInterfaces
  import opened ResolverSteps

  const DefaultJavaDebugPort := "5005"
  const DefaultJavaAppPort := "9000"
  /** The agent options written into `JAVA_OPTS` when the Dockerfile only
      refers to that variable. */
  const DefaultJavaDebugOpts := "-agentlib:jdwp=transport=dt_socket,server=y,suspend=y,address=" + DefaultJavaDebugPort + ",quiet=y"
  const FilePrompt := "Please specify debug port exposed by the Dockerfile (e.g. 5005)"
  const ContainerPrompt := "Please specify debug port exposed by the container (e.g. 5005)"

  /** A Java image: the name contains `java`, `openjdk` or `oracle`, case-sensitively. */
  function IsSupportedImage(baseImage: string): (r: bool)
    ensures r <==> || (exists k :: OccursAt(baseImage, "java", k))
                   || (exists k :: OccursAt(baseImage, "openjdk", k))
                   || (exists k :: OccursAt(baseImage, "oracle", k))
  {
    Contains(baseImage, "java") || Contains(baseImage, "openjdk") || Contains(baseImage, "oracle")
  }

  // ------------------------------------------------- the agent's address

  /** What group 2 of the agent patterns, `(address=[^\s,]+)` under the `i`
      flag, can capture: `address` in any letter case, `=`, then at least
      one character that is neither whitespace nor a comma. */
  predicate IsAddressCapture(g: string) {
    && |g| > 8
    && CaselessLetters(g[..7], "address")
    && g[7] == '='
    && (forall i :: 8 <= i < |g| ==> !IsWhitespace(g[i]) && g[i] != ',')
  }

  type AddressCapture = g: string | IsAddressCapture(g) witness "address=0"

  /** `matches[2].split("=")[1].split(":")` followed by its last element:
      the address value runs from the first `=` to the next `=` (if any),
      and the port is what follows its last `:`. */
  function AddressPort(g: AddressCapture): (port: string)
    ensures port == LastSegment(Split(g[8..], '=')[0], ':')
  {
    assert g == g[..7] + ['='] + g[8..];
    SplitAround(g[..7], '=', g[8..]);
    SplitWithoutSeparator(g[..7], '=');
    var fields := Split(g, '=');
    LastSegment(fields[1], ':')
  }

  /** `address=PORT` gives PORT. */
  lemma AddressPortBare(g: AddressCapture, port: string)
    requires g[8..] == port && ':' !in port && '=' !in port
    ensures AddressPort(g) == port
  {
    SplitWithoutSeparator(port, '=');
    LastSegmentWhole(port, ':');
  }

  /** `address=HOST:PORT` gives PORT, the text after the last colon. */
  lemma AddressPortWithHost(g: AddressCapture, host: string, port: string)
    requires g[8..] == host + [':'] + port && ':' !in port && '=' !in g[8..]
    ensures AddressPort(g) == port
  {
    SplitWithoutSeparator(g[8..], '=');
    LastSegmentAfter(host, ':', port);
  }

  // ----------------------------------------------- Dockerfile resolution

  /** `/\$\{?JAVA_OPTS\}?/` finds a match: the launch arguments mention
      `$JAVA_OPTS` or `${JAVA_OPTS`. */
  function MentionsJavaOpts(launchArgs: string): (r: bool)
    ensures r <==> (exists k :: OccursAt(launchArgs, "$JAVA_OPTS", k)) || (exists k :: OccursAt(launchArgs, "${JAVA_OPTS", k))
  {
    Contains(launchArgs, "$JAVA_OPTS") || Contains(launchArgs, "${JAVA_OPTS")
  }

  /** Stages 1 and 2 of a Dockerfile resolution: the debug port the launch
      arguments give, either through the agent flag or through the
      `JAVA_OPTS` sentinel, and the overlay after them. */
  function LaunchStage(launchArgs: string, agent: Option<AddressCapture>, env: map<string, string>)
    : (r: (Option<string>, map<string, string>))
    ensures r.0.Some? <==> agent.Some? || MentionsJavaOpts(launchArgs)
    ensures agent.Some? ==> r.0 == Some(AddressPort(agent.value))
    ensures r.1 == env || (agent.None? && r.1 == env["JAVA_OPTS" := DefaultJavaDebugOpts])
  {
    if agent.Some? then (Some(AddressPort(agent.value)), env)
    else if MentionsJavaOpts(launchArgs) then (Some(DefaultJavaDebugPort), env["JAVA_OPTS" := DefaultJavaDebugOpts])
    else (None, env)
  }

  /** A whole Dockerfile resolution. `matchAgent` stands for the search of
      the launch arguments with the agent pattern (group 2 when it
      matches), `input` for the answer to the input box and `pick` for the
      quick-pick choice. */
  function FromFile(parser: DockerParser, matchAgent: string -> Option<AddressCapture>,
                    input: Option<string>, pick: Option<nat>, env: map<string, string>): (r: Resolution)
    ensures r.info.app.Some? ==> Resolved(r.info.debug)
    ensures PromptOrder(r.shown, !Resolved(LaunchStage(parser.launchArgs, matchAgent(parser.launchArgs), env).0))
  {
    var (found, env1) := LaunchStage(parser.launchArgs, matchAgent(parser.launchArgs), env);
    var (debug, asked) := AskDebugPort(found, input, FilePrompt, DefaultJavaDebugPort);
    if !Resolved(debug) then
      AskThenPick(found, input, FilePrompt, DefaultJavaDebugPort, []);
      Resolution(PortInfo(debug, None), env1, asked)
    else
      var (app, env2, picked) := ResolveApp(parser.exposedPorts, {debug.value}, pick, env1, DefaultJavaAppPort);
      AskThenPick(found, input, FilePrompt, DefaultJavaDebugPort, picked);
      Resolution(PortInfo(debug, app), env2, asked + picked)
  }

  /** `resolvePortsFromFile`: fills the port pair stage by stage and writes
      the defaults it needs into the caller's environment overlay. */
  method ResolvePortsFromFile(parser: DockerParser, env: Env, matchAgent: string -> Option<AddressCapture>,
                              input: Option<string>, pick: Option<nat>)
    returns (info: PortInfo, shown: seq<Prompt>)
    modifies env
    ensures Resolution(info, env.vars, shown) == FromFile(parser, matchAgent, input, pick, old(env.vars))
  {
    var debug: Option<string> := None;
    var app: Option<string> := None;
    shown := [];

    // Resolve the debug port.
    var matches := matchAgent(parser.launchArgs);
    if matches.Some? {
      debug := Some(AddressPort(matches.value));
    } else if MentionsJavaOpts(parser.launchArgs) {
      env.vars := env.vars["JAVA_OPTS" := DefaultJavaDebugOpts];
      debug := Some(DefaultJavaDebugPort);
    }
    ghost var env1 := env.vars;
    assert (debug, env1) == LaunchStage(parser.launchArgs, matches, old(env.vars));
    // Otherwise ask for it.
    ghost var found := debug;
    if !Resolved(debug) {
      shown := [InputBox(FilePrompt, DefaultJavaDebugPort)];
      debug := PromptAnswer(input);
    }
    assert (debug, shown) == AskDebugPort(found, input, FilePrompt, DefaultJavaDebugPort);
    if !Resolved(debug) {
      info := PortInfo(debug, app);
      return;
    }

    // Resolve the app port.
    var picked;
    app, picked := PickAppPort(parser.exposedPorts, {debug.value}, pick, env, DefaultJavaAppPort);
    shown := shown + picked;
    info := PortInfo(debug, app);
  }

  // ------------------------------------ properties of the Dockerfile path

  /** An agent flag decides the debug port: it is the address's trailing
      segment, and no input box is shown unless that segment is empty. */
  lemma AgentFlagDecides(parser: DockerParser, matchAgent: string -> Option<AddressCapture>,
                         input: Option<string>, pick: Option<nat>, env: map<string, string>)
    requires matchAgent(parser.launchArgs).Some?
    requires AddressPort(matchAgent(parser.launchArgs).value) != ""
    ensures var r := FromFile(parser, matchAgent, input, pick, env);
            && r.info.debug == Some(AddressPort(matchAgent(parser.launchArgs).value))
            && forall p :: p in r.shown ==> p.QuickPick?
  {
    var agent := matchAgent(parser.launchArgs);
    var (found, env1) := LaunchStage(parser.launchArgs, agent, env);
    assert found == Some(AddressPort(agent.value));
    var (debug, asked) := AskDebugPort(found, input, FilePrompt, DefaultJavaDebugPort);
    assert debug == found && asked == [];
    var (app, env2, picked) := ResolveApp(parser.exposedPorts, {debug.value}, pick, env1, DefaultJavaAppPort);
    assert FromFile(parser, matchAgent, input, pick, env) == Resolution(PortInfo(debug, app), env2, asked + picked);
    assert asked + picked == picked;
  }

  /** The `JAVA_OPTS` sentinel, with no agent flag: the overlay gets the
      default agent options and the debug port is 5005; in every other case
      stages 1 and 2 write nothing into the overlay. */
  lemma JavaOptsSentinel(launchArgs: string, agent: Option<AddressCapture>, env: map<string, string>)
    ensures agent.None? && MentionsJavaOpts(launchArgs) ==>
              LaunchStage(launchArgs, agent, env) == (Some("5005"), env["JAVA_OPTS" := DefaultJavaDebugOpts])
    ensures !(agent.None? && MentionsJavaOpts(launchArgs)) ==> LaunchStage(launchArgs, agent, env).1 == env
  {
  }

  /** The default agent options carry `address=5005`. */
  lemma DefaultOptsAddress()
    ensures OccursAt(DefaultJavaDebugOpts, "address=5005", 54)
  {
    assert DefaultJavaDebugOpts[54..66] == "address=5005";
  }

  /** The address in the default agent options gives back the default debug port. */
  lemma DefaultAddressPort()
    ensures AddressPort("address=5005") == DefaultJavaDebugPort
  {
    var g: AddressCapture := "address=5005";
    AddressPortBare(g, "5005");
  }

  /** When neither the launch arguments nor the input box give a debug port,
      the resolution stops: no app port, the overlay untouched (the
      `JAVA_OPTS` sentinel always gives a port), and the exposed ports make
      no difference. */
  lemma UnresolvedDebugStops(parser: DockerParser, other: seq<string>, matchAgent: string -> Option<AddressCapture>,
                             input: Option<string>, pick: Option<nat>, env: map<string, string>)
    requires !Resolved(FromFile(parser, matchAgent, input, pick, env).info.debug)
    ensures var r := FromFile(parser, matchAgent, input, pick, env);
            && r.info.app.None?
            && r.env == env
            && r == FromFile(parser.(exposedPorts := other), matchAgent, input, pick, env)
  {
  }

  /** The input box: a missing or all-whitespace answer leaves the debug
      port unresolved, anything else is taken trimmed. */
  lemma TypedDebugPort(parser: DockerParser, matchAgent: string -> Option<AddressCapture>,
                       input: Option<string>, pick: Option<nat>, env: map<string, string>)
    requires !Resolved(LaunchStage(parser.launchArgs, matchAgent(parser.launchArgs), env).0)
    ensures var r := FromFile(parser, matchAgent, input, pick, env);
            && r.shown[0] == InputBox(FilePrompt, "5005")
            && (Resolved(r.info.debug) <==> input.Some? && !AllWhitespace(input.value))
            && (Resolved(r.info.debug) ==> r.info.debug.value == Trim(input.value))
  {
  }

  /** The app port, once the debug port is known: the candidates are the
      exposed ports other than the debug port; exactly one is taken with no
      quick pick, none leaves the app port unset, several are offered in a
      quick pick. */
  lemma AppCandidates(parser: DockerParser, matchAgent: string -> Option<AddressCapture>,
                      input: Option<string>, pick: Option<nat>, env: map<string, string>)
    requires Resolved(FromFile(parser, matchAgent, input, pick, env).info.debug)
    ensures var r := FromFile(parser, matchAgent, input, pick, env);
            var c := ExcludePorts(parser.exposedPorts, {r.info.debug.value});
            && (|c| == 0 ==> r.info.app.None? && QuickPick(c, AppPickPlaceHolder) !in r.shown)
            && (|c| == 1 && VariableReference(c[0]).None? ==>
                  r.info.app == Some(c[0]) && forall p :: p in r.shown ==> !p.QuickPick?)
            && (|c| > 1 ==> QuickPick(c, AppPickPlaceHolder) in r.shown)
            && (|c| > 1 && pick.None? ==> r.info.app.None?)
            && (|c| > 1 && pick.Some? && pick.value < |c| && VariableReference(c[pick.value]).None? ==>
                  r.info.app == Some(c[pick.value]))
  {
    var (found, env1) := LaunchStage(parser.launchArgs, matchAgent(parser.launchArgs), env);
    var (debug, asked) := AskDebugPort(found, input, FilePrompt, DefaultJavaDebugPort);
    var r := FromFile(parser, matchAgent, input, pick, env);
    assert Resolved(debug);
    var excluded := {debug.value};
    var (app, env2, picked) := ResolveApp(parser.exposedPorts, excluded, pick, env1, DefaultJavaAppPort);
    assert r == Resolution(PortInfo(debug, app), env2, asked + picked);
    AppStageAfterInput(asked, parser.exposedPorts, excluded, pick, env1, DefaultJavaAppPort);
  }


  /** Whatever app port comes out is the pinned default or an exposed port
      other than the debug port. */
  lemma AppPortOrigin(parser: DockerParser, matchAgent: string -> Option<AddressCapture>,
                      input: Option<string>, pick: Option<nat>, env: map<string, string>)
    ensures var r := FromFile(parser, matchAgent, input, pick, env);
            r.info.app.Some? ==>
              Resolved(r.info.debug)
              && (r.info.app.value == "9000"
                  || (r.info.app.value in parser.exposedPorts && r.info.app.value != r.info.debug.value))
  {
  }

  /** A chosen app port holding `$NAME` or `${NAME}` is pinned: the overlay
      maps NAME to 9000 and the app port becomes 9000. */
  lemma AppVariablePinned(parser: DockerParser, matchAgent: string -> Option<AddressCapture>,
                          input: Option<string>, pick: Option<nat>, env: map<string, string>, name: string)
    requires var r := FromFile(parser, matchAgent, input, pick, env);
             && Resolved(r.info.debug) && parser.exposedPorts != []
             && var chosen := ChooseApp(ExcludePorts(parser.exposedPorts, {r.info.debug.value}), pick).0;
                chosen.Some? && VariableReference(chosen.value) == Some(name)
    ensures var r := FromFile(parser, matchAgent, input, pick, env);
            r.info.app == Some("9000") && name in r.env && r.env[name] == "9000"
  {
  }

  /** With an agent flag whose address gives a port, and exactly one other
      exposed port free of variable references, the resolution asks nothing
      and leaves the overlay alone. */
  lemma NoPromptResolution(parser: DockerParser, matchAgent: string -> Option<AddressCapture>,
                           input: Option<string>, pick: Option<nat>, env: map<string, string>,
                           g: AddressCapture, app: string)
    requires matchAgent(parser.launchArgs) == Some(g) && AddressPort(g) != ""
    requires ExcludePorts(parser.exposedPorts, {AddressPort(g)}) == [app] && '$' !in app
    ensures FromFile(parser, matchAgent, input, pick, env)
            == Resolution(PortInfo(Some(AddressPort(g)), Some(app)), env, [])
  {
    var port := AddressPort(g);
    assert LaunchStage(parser.launchArgs, Some(g), env) == (Some(port), env);
    LaunchArgsResolve(parser, matchAgent, input, pick, env);
    SingleCandidateTaken(parser.exposedPorts, {port}, pick, env, DefaultJavaAppPort, app);
  }

  /** When the launch arguments give a debug port, no input box is shown
      and the resolution goes straight to the app-port stage. */
  lemma LaunchArgsResolve(parser: DockerParser, matchAgent: string -> Option<AddressCapture>,
                          input: Option<string>, pick: Option<nat>, env: map<string, string>)
    requires Resolved(LaunchStage(parser.launchArgs, matchAgent(parser.launchArgs), env).0)
    ensures var (found, env1) := LaunchStage(parser.launchArgs, matchAgent(parser.launchArgs), env);
            var (app, env2, picked) := ResolveApp(parser.exposedPorts, {found.value}, pick, env1, DefaultJavaAppPort);
            FromFile(parser, matchAgent, input, pick, env) == Resolution(PortInfo(found, app), env2, picked)
  {
    var (found, env1) := LaunchStage(parser.launchArgs, matchAgent(parser.launchArgs), env);
    assert AskDebugPort(found, input, FilePrompt, DefaultJavaDebugPort) == (found, []);
    var (app, env2, picked) := ResolveApp(parser.exposedPorts, {found.value}, pick, env1, DefaultJavaAppPort);
    assert [] + picked == picked;
  }

  /** The overlay gets at most two writes: `JAVA_OPTS` from the sentinel
      stage, then the pinned app-port variable. */
  lemma OverlayWrites(parser: DockerParser, matchAgent: string -> Option<AddressCapture>,
                      input: Option<string>, pick: Option<nat>, env: map<string, string>)
    ensures var r := FromFile(parser, matchAgent, input, pick, env);
            var env1 := LaunchStage(parser.launchArgs, matchAgent(parser.launchArgs), env).1;
            && (env1 == env || env1 == env["JAVA_OPTS" := DefaultJavaDebugOpts])
            && (r.env == env1 || (r.info.app == Some("9000") && exists name :: name in r.env && r.env == env1[name := "9000"]))
  {
    var (found, env1) := LaunchStage(parser.launchArgs, matchAgent(parser.launchArgs), env);
    var (debug, asked) := AskDebugPort(found, input, FilePrompt, DefaultJavaDebugPort);
    if Resolved(debug) {
      var (app, env2, picked) := ResolveApp(parser.exposedPorts, {debug.value}, pick, env1, DefaultJavaAppPort);
      assert FromFile(parser, matchAgent, input, pick, env) == Resolution(PortInfo(debug, app), env2, asked + picked);
      ResolveAppWrites(parser.exposedPorts, {debug.value}, pick, env1, DefaultJavaAppPort);
    }
  }

  /** Only `${JAVA_OPTS}` in the launch arguments and
      `EXPOSE 8080` gives debug 5005 and app 8080, with `JAVA_OPTS` set to
      the default agent options. */
  lemma SentinelScenario(parser: DockerParser, matchAgent: string -> Option<AddressCapture>,
                         input: Option<string>, pick: Option<nat>, env: map<string, string>)
    requires matchAgent(parser.launchArgs).None?
    requires OccursAt(parser.launchArgs, "${JAVA_OPTS}", 0)
    requires parser.exposedPorts == ["8080"]
    ensures FromFile(parser, matchAgent, input, pick, env)
            == Resolution(PortInfo(Some("5005"), Some("8080")), env["JAVA_OPTS" := DefaultJavaDebugOpts], [])
  {
    assert OccursAt(parser.launchArgs, "${JAVA_OPTS", 0) by {
      assert parser.launchArgs[0..11] == parser.launchArgs[0..12][..11];
    }
    var env1 := env["JAVA_OPTS" := DefaultJavaDebugOpts];
    assert LaunchStage(parser.launchArgs, None, env) == (Some("5005"), env1);
    assert AskDebugPort(Some("5005"), input, FilePrompt, DefaultJavaDebugPort) == (Some("5005"), []);
    var exposed := parser.exposedPorts;
    assert ExcludePorts(exposed, {"5005"}) == ["8080"] by {
      assert exposed[1..] == [];
    }
    SingleCandidateTaken(exposed, {"5005"}, pick, env1, DefaultJavaAppPort, "8080");
  }

  /** Nothing in the launch arguments, `6006` typed in,
      no EXPOSE: debug 6006 and no app port. */
  lemma TypedPortScenario(parser: DockerParser, matchAgent: string -> Option<AddressCapture>,
                          pick: Option<nat>, env: map<string, string>)
    requires matchAgent(parser.launchArgs).None? && !MentionsJavaOpts(parser.launchArgs)
    requires parser.exposedPorts == []
    ensures FromFile(parser, matchAgent, Some("6006"), pick, env)
            == Resolution(PortInfo(Some("6006"), None), env, [InputBox(FilePrompt, "5005")])
  {
    var typed := Some("6006");
    assert LaunchStage(parser.launchArgs, None, env) == (None, env);
    assert AskDebugPort(None, typed, FilePrompt, DefaultJavaDebugPort) == (typed, [InputBox(FilePrompt, "5005")]) by {
      assert PromptAnswer(typed) == typed by { TrimUnchanged("6006"); }
    }
    assert ResolveApp([], {"6006"}, pick, env, DefaultJavaAppPort) == (None, env, []);
  }

  // ---------------------------------------- running-container resolution

  /** The debug port that a `ps -ef` listing gives: none when the exec
      failed; otherwise the address port of the first row whose command the
      full agent pattern matches. */
  function ScanDebugPort(exec: ExecResult, matchFull: string -> Option<AddressCapture>): (port: Option<string>)
    ensures exec.code != 0 ==> port.None?
    ensures port.Some? <==> exec.code == 0 && FirstCommandMatch(exec.stdout, matchFull).Some?
  {
    if exec.code != 0 then None
    else match FirstCommandMatch(exec.stdout, matchFull)
      case None => None
      case Some((_, g)) => Some(AddressPort(g))
  }

  /** A whole running-container resolution: the scan, then the input box
      when it gave nothing. The app port is never set. */
  function FromContainer(exec: ExecResult, matchFull: string -> Option<AddressCapture>, input: Option<string>)
    : (r: (PortInfo, seq<Prompt>))
    ensures r.0.app.None?
    ensures Resolved(ScanDebugPort(exec, matchFull)) ==> r == (PortInfo(ScanDebugPort(exec, matchFull), None), [])
    ensures !Resolved(ScanDebugPort(exec, matchFull)) ==>
              r == (PortInfo(PromptAnswer(input), None), [InputBox(ContainerPrompt, "5005")])
  {
    var (debug, shown) := AskDebugPort(ScanDebugPort(exec, matchFull), input, ContainerPrompt, DefaultJavaDebugPort);
    (PortInfo(debug, None), shown)
  }

  /** `resolvePortsFromContainer`: scans the rows of `ps -ef` for the first
      Java command with an agent flag, skipping rows shorter than the
      header, and falls back to the input box. */
  method ResolvePortsFromContainer(exec: ExecResult, matchFull: string -> Option<AddressCapture>, input: Option<string>)
    returns (info: PortInfo, shown: seq<Prompt>)
    ensures (info, shown) == FromContainer(exec, matchFull, input)
    ensures info.app.None?
    ensures exec.code != 0 ==> shown == [InputBox(ContainerPrompt, "5005")] && info.debug == PromptAnswer(input)
  {
    var debug: Option<string> := None;
    if exec.code == 0 {
      var ps := Split(exec.stdout, '\n');
      var totalCol := |Tokens(ps[0])|;
      ghost var cmds := RowCommands(ps, totalCol);
      ghost var first := FirstMatchFrom(cmds, matchFull, 1);
      assert FirstCommandMatch(exec.stdout, matchFull) == first;
      for i := 1 to |ps|
        invariant debug.None?
        invariant FirstMatchFrom(cmds, matchFull, i) == first
      {
        var cols := Tokens(ps[i]);
        if |cols| < totalCol {
          assert cmds[i].None?;
          continue;
        }
        var cmd := Join(cols[totalCol - 1..], " ");
        assert cmds[i] == Some(cmd);
        var matches := matchFull(cmd);
        if matches.Some? {
          assert first == Some((i, matches.value));
          debug := Some(AddressPort(matches.value));
          break;
        }
      }
      assert debug.None? ==> first.None?;
    }
    assert debug == ScanDebugPort(exec, matchFull);
    shown := [];
    if !Resolved(debug) {
      shown := [InputBox(ContainerPrompt, DefaultJavaDebugPort)];
      debug := PromptAnswer(input);
    }
    info := PortInfo(debug, None);
  }

  /** A listing laid out row by row: the scan stops at the first data row
      whose command carries the agent flag; its address port is the debug
      port when not empty, and otherwise (or when there is no such row) the
      input box is shown and its answer taken. */
  lemma ContainerListing(rows: seq<RowLayout>, matchFull: string -> Option<AddressCapture>, input: Option<string>)
    requires |rows| >= 1
    requires AllLaidOut(rows)
    ensures var r := FromContainer(ExecResult(0, Listing(rows)), matchFull, input);
            var asked := (PortInfo(PromptAnswer(input), None), [InputBox(ContainerPrompt, "5005")]);
            match FirstMatchFrom(ListedCommands(rows), matchFull, 1)
            case Some((_, g)) =>
              if AddressPort(g) != "" then r == (PortInfo(Some(AddressPort(g)), None), []) else r == asked
            case None => r == asked
  {
    ListingScan(rows, matchFull);
  }

  /** A listing whose first data row is `width - 1` fields followed by a
      command the full agent pattern matches, however its columns are
      padded and whatever rows follow, gives that command's address port
      and shows no prompt. */
  lemma SingleProcessRow(rows: seq<RowLayout>, fields: seq<string>, command: seq<string>,
                         matchFull: string -> Option<AddressCapture>, input: Option<string>, m: AddressCapture)
    requires |rows| >= 2 && AllLaidOut(rows)
    requires rows[1].tokens == fields + command && |fields| == |Columns(rows[0])| - 1 && command != []
    requires matchFull(Join(command, " ")) == Some(m) && AddressPort(m) != ""
    ensures FromContainer(ExecResult(0, Listing(rows)), matchFull, input)
            == (PortInfo(Some(AddressPort(m)), None), [])
  {
    SingleRowListing(rows, fields, command, matchFull, m);
  }
}
