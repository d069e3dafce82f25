/** The base URL the client sends its HTTP requests and socket connection to,
    chosen from the page's own location: the page's host itself on the hosting
    platform, the API port over plain HTTP on a local machine or network, and
    the API port under the page's protocol anywhere else. */
module ApiBase {
  import opened Base
  import opened Text

  const DefaultPort: string := "3020"

  /** `process.env.REACT_APP_API_PORT || 3020`: an unset or empty variable
      falls back to the default. */
  function Port(env: Option<string>): (port: string)
    ensures port != ""
    ensures env.Some? && env.value != "" ==> port == env.value
    ensures env.None? || env.value == "" ==> port == DefaultPort
  {
    if env.Some? && env.value != "" then env.value else DefaultPort
  }

  predicate OnRailway(hostname: string) {
    Includes(hostname, "railway.app")
  }

  /** `localhost`, `127.0.0.1`, or an address matching `/^192\.168\./`. */
  predicate OnLocalNetwork(hostname: string) {
    hostname == "localhost" || hostname == "127.0.0.1" || StartsWith(hostname, "192.168.")
  }

  /** `getApiBase()` for a page at `protocol//hostname` (the protocol keeps its
      trailing colon, as `window.location.protocol` does). */
  function GetApiBase(protocol: string, hostname: string, env: Option<string>): (url: string)
    ensures OnRailway(hostname) ==> url == protocol + "//" + hostname
    ensures !OnRailway(hostname) && OnLocalNetwork(hostname) ==> url == "http://" + hostname + ":" + Port(env)
    ensures !OnRailway(hostname) && !OnLocalNetwork(hostname) ==> url == protocol + "//" + hostname + ":" + Port(env)
  {
    if Includes(hostname, "railway.app") then protocol + "//" + hostname
    else if hostname == "localhost" || hostname == "127.0.0.1" || StartsWith(hostname, "192.168.") then
      "http://" + hostname + ":" + Port(env)
    else protocol + "//" + hostname + ":" + Port(env)
  }

  /** Every base URL is a scheme, `//`, the page's hostname and a port suffix;
      the suffix is empty exactly on the hosting platform, the scheme is plain
      `http:` on a local network whatever the page's protocol, and the page's
      protocol everywhere else. */
  lemma ApiBaseShape(protocol: string, hostname: string, env: Option<string>)
    ensures exists scheme: string, suffix: string ::
      && GetApiBase(protocol, hostname, env) == scheme + "//" + hostname + suffix
      && (suffix == "" <==> OnRailway(hostname))
      && (suffix != "" ==> suffix == ":" + Port(env))
      && (scheme == if !OnRailway(hostname) && OnLocalNetwork(hostname) then "http:" else protocol)
  {
    var url := GetApiBase(protocol, hostname, env);
    if OnRailway(hostname) {
      assert url == protocol + "//" + hostname + "";
    } else if OnLocalNetwork(hostname) {
      assert url == "http:" + "//" + hostname + (":" + Port(env));
    } else {
      assert url == protocol + "//" + hostname + (":" + Port(env));
    }
  }
}
