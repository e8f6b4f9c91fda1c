/** `getPort`: where the server listens, chosen from the command line, the
    PORT environment variable and a default, first match wins. The value of
    PORT is a parameter (None where `System.getenv` returns null). */
module HttpServerApp {
  import opened Wrappers
  import opened JavaString
  import opened JavaInteger

  const DefaultPort: int := 8080
  const MinPort: int := 1
  const MaxPort: int := 65535

  predicate IsPortFlag(arg: string)
  {
    arg == "--port" || arg == "-p"
  }

  /** `args[i]` is `--port` or `-p` and another argument follows it. */
  predicate FlagAt(args: seq<string>, i: int)
  {
    0 <= i && i + 1 < |args| && IsPortFlag(args[i])
  }

  /** The index of the first flag at or after `from` that has a value. */
  function FlagIndex(args: seq<string>, from: nat): (r: Option<nat>)
    ensures r.Some? ==> (from <= r.value && FlagAt(args, r.value) &&
      forall j :: from <= j < r.value ==> !FlagAt(args, j))
    ensures r.None? ==> forall j :: from <= j ==> !FlagAt(args, j)
    decreases |args| - from
  {
    if from + 1 >= |args| then None
    else if IsPortFlag(args[from]) then Some(from)
    else FlagIndex(args, from + 1)
  }

  /** One candidate value, parsed as `Integer.parseInt` does and checked
      against the port range; a value that does not parse or is out of
      range gives the default. */
  function PortFrom(token: string): (port: int)
    ensures MinPort <= port <= MaxPort
    ensures port != DefaultPort ==> ParseInt(token) == Some(port)
    ensures ParseInt(token).Some? && MinPort <= ParseInt(token).value <= MaxPort ==>
      port == ParseInt(token).value
  {
    match ParseInt(token)
    case None => DefaultPort
    case Some(n) => if n < MinPort || n > MaxPort then DefaultPort else n
  }

  /** The legacy form: exactly one argument, not starting with `-`. */
  predicate LegacyForm(args: seq<string>)
  {
    |args| == 1 && !StartsWith(args[0], "-")
  }

  /** The resolution order of `getPort`, as a function. */
  function ResolvePort(args: seq<string>, portEnv: Option<string>): (port: int)
    ensures MinPort <= port <= MaxPort
  {
    match FlagIndex(args, 0)
    case Some(i) => PortFrom(args[i + 1])
    case None =>
      if LegacyForm(args) then PortFrom(args[0])
      else if portEnv.Some? && portEnv.value != "" then PortFrom(portEnv.value)
      else DefaultPort
  }

  /** `getPort`: scan the arguments for the first flag with a value, then
      try the legacy form, then PORT, then fall back to the default. */
  method GetPort(args: seq<string>, portEnv: Option<string>) returns (port: int)
    ensures port == ResolvePort(args, portEnv)
    ensures MinPort <= port <= MaxPort
  {
    for i := 0 to |args|
      invariant FlagIndex(args, 0) == FlagIndex(args, i)
    {
      if IsPortFlag(args[i]) && i + 1 < |args| {
        port := PortFrom(args[i + 1]);
        return;
      }
    }
    if |args| == 1 && !StartsWith(args[0], "-") {
      port := PortFrom(args[0]);
      return;
    }
    if portEnv.Some? && portEnv.value != "" {
      port := PortFrom(portEnv.value);
      return;
    }
    port := DefaultPort;
  }

  /** A port written in decimal is read back; an integer outside the port
      range, written the same way, gives the default. */
  lemma PortFromToString(n: int)
    requires MinInt <= n <= MaxInt
    ensures PortFrom(ToString(n)) == if MinPort <= n <= MaxPort then n else DefaultPort
  {
    ParseIntToString(n);
  }

  /** The first flag with a value decides alone: its value gives the port
      or the default, and neither the legacy form nor PORT is consulted. */
  lemma FlagDecides(args: seq<string>, portEnv: Option<string>, i: nat)
    requires FlagAt(args, i)
    requires forall j :: 0 <= j < i ==> !FlagAt(args, j)
    ensures ResolvePort(args, portEnv) == PortFrom(args[i + 1])
  {
  }

  /** With no flag match, a single argument not starting with `-` decides
      alone, and PORT is ignored. */
  lemma LegacyDecides(args: seq<string>, portEnv: Option<string>)
    requires LegacyForm(args)
    ensures ResolvePort(args, portEnv) == PortFrom(args[0])
  {
  }

  /** PORT is used only when neither command-line form applied; absent or
      empty it gives the default. */
  lemma EnvDecides(args: seq<string>, portEnv: Option<string>)
    requires forall j :: !FlagAt(args, j)
    requires !LegacyForm(args)
    ensures ResolvePort(args, portEnv) ==
      if portEnv.Some? && portEnv.value != "" then PortFrom(portEnv.value) else DefaultPort
  {
  }

  /** The environment matters only when the command line names no port. */
  lemma EnvOnlyWithoutCommandLine(args: seq<string>, env1: Option<string>, env2: Option<string>)
    requires ResolvePort(args, env1) != ResolvePort(args, env2)
    ensures forall j :: !FlagAt(args, j)
    ensures !LegacyForm(args)
  {
  }

  /** `--port 9090` listens on 9090. */
  lemma FlagPortExample(portEnv: Option<string>)
    ensures ResolvePort(["--port", "9090"], portEnv) == 9090
  {
    assert ToString(9090) == "9090";
    PortFromToString(9090);
  }

  /** `--port 70000` listens on the default, even when PORT is set. */
  lemma FlagOutOfRangeExample(portEnv: Option<string>)
    ensures ResolvePort(["--port", "70000"], portEnv) == DefaultPort
  {
    assert ToString(70000) == "70000";
    PortFromToString(70000);
  }

  /** With no arguments, PORT=3000 listens on 3000 and no PORT on 8080. */
  lemma EnvExamples()
    ensures ResolvePort([], Some("3000")) == 3000
    ensures ResolvePort([], None) == DefaultPort
  {
    assert ToString(3000) == "3000";
    PortFromToString(3000);
  }
}
