/** The values that pass between a Docker resolver and its collaborators:
    the port pair it produces, what the Dockerfile parser and the remote
    `ps -ef` exec hand it, the prompts it shows, and the environment
    overlay it writes into. */
module DebugInterfaces {

  datatype Option<+T> = None | Some(value: T)

  /** The result of a resolution: the debug port and the app port, as text;
      either may be missing. */
  datatype PortInfo = PortInfo(debug: Option<string>, app: Option<string>)

  /** A port field that JavaScript treats as set: present and not the empty
      string (`!portInfo.debug` is true for both null and ""). */
  predicate Resolved(port: Option<string>) {
    port.Some? && port.value != ""
  }

  /** What the Dockerfile parser offers: the launch-argument text that
      `searchLaunchArgs` matches patterns against, and the EXPOSE entries
      that `getExposedPorts` returns, in order. */
  datatype DockerParser = DockerParser(launchArgs: string, exposedPorts: seq<string>)

  /** The outcome of `kubectl exec <pod> -- ps -ef`. */
  datatype ExecResult = ExecResult(code: int, stdout: string)

  /** A prompt the resolver puts on screen: a text input box or a quick pick. */
  datatype Prompt =
    | InputBox(prompt: string, placeHolder: string)
    | QuickPick(items: seq<string>, placeHolder: string)

  /** The caller's environment overlay, a dictionary the resolver writes
      default values into. */
  class Env {
    var vars: map<string, string>
  }

  /** What a Dockerfile resolution produces: the ports, the environment
      overlay afterwards, and the prompts shown on the way. */
  datatype Resolution = Resolution(info: PortInfo, env: map<string, string>, shown: seq<Prompt>)
}
