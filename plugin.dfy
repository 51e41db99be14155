/** `run` (nmap.py lines 45-91): the plugin's entry point, which checks that
    the tool is installed, finds the target, the ports and the flags in the
    host's command, builds the argument vector, has the host run it, and
    routes the output.  Every service of the host — locating the executable,
    recognising addresses and names, running the process, reading the
    user's answer, the chat service — is a parameter, and what the plugin
    would print is returned as a list of messages. */
module Plugin {
  import opened Wrappers
  import opened PyText
  import Command
  import Flags
  import Ports
  import Targets
  import Router

  const MissingTool := "\nSorry! nmap is not currently installed on your system."
  const NoTarget := "\nSorry, you need to provide a valid IP address or hostname"
  const Running := "\nRunning... hang tight!"

  /** The host's parsed command: its whole text and the texts of its tokens. */
  datatype Args = Args(text: string, tokens: seq<string>)

  /** The host's services as the plugin sees them. */
  datatype Host = Host(
    toolPath: Option<string>,             // `get_command_path("nmap")`
    ipOf: string -> Option<string>,       // `get_ip_address`
    hostOf: string -> Option<string>,     // `get_hostname`
    scan: seq<string> -> string,          // standard output of running a vector
    answer: string,                       // what the user types at the prompt
    chat: string -> Router.Reply)         // `llm_chat`

  /** What one run does: the messages printed in order (the question
      `input` asks among them), the vector run (if any) and the request
      sent to the chat service (if any). */
  datatype Report = Report(shown: seq<string>, scanned: Option<seq<string>>, request: Option<string>)

  /** Lines 50-57: the target search, skipped when there is no command. */
  function Search(host: Host, arguments: Option<Args>): Targets.Found {
    if arguments.Some? then Targets.Walk(arguments.value.tokens, host.ipOf, host.hostOf, None, None)
    else Targets.Found(None, None)
  }

  /** Lines 45-91 as one function of the host and the command. */
  function Outcome(host: Host, arguments: Option<Args>): Report {
    var found := Search(host, arguments);
    if host.toolPath.None? then Report([MissingTool], None, None)
    else if arguments.None? || Targets.Failed(found) then Report([NoTarget], None, None)
    else
      var text := arguments.value.text;
      var argv := Command.StripAll(Command.Layout(Targets.Target(found).value, Ports.PortsOf(text), Flags.Parameters(text)));
      var routed := Router.Route(host.answer, host.scan(argv), host.chat);
      Report([Running, Router.Prompt] + routed.shown, Some(argv), routed.request)
  }

  /** Lines 45-91. */
  method Run(host: Host, arguments: Option<Args>) returns (report: Report)
    ensures report == Outcome(host, arguments)
  {
    if host.toolPath.None? {
      return Report([MissingTool], None, None);
    }
    var ip: Option<string> := None;
    var hostname: Option<string> := None;
    var portNumbers: seq<string> := [];
    if arguments.Some? {
      ip, hostname := Targets.SearchTokens(arguments.value.tokens, host.ipOf, host.hostOf);
      portNumbers := Ports.ExtractPorts(arguments.value.text);
    }
    if ip.None? && hostname.None? {
      return Report([NoTarget], None, None);
    }
    var target := if ip.Some? then ip.value else hostname.value;
    var matches := Flags.Parameters(arguments.value.text);
    var argv := Command.BuildCommand(target, portNumbers, matches);
    var stdout := host.scan(argv);
    var routed := Router.Route(host.answer, stdout, host.chat);
    report := Report([Running, Router.Prompt] + routed.shown, Some(argv), routed.request);
  }

  /** A vector is run exactly when the tool is installed and the search
      resolved a target; otherwise one apology is printed and nothing else
      happens. */
  lemma ScanNeedsToolAndTarget(host: Host, arguments: Option<Args>)
    ensures var r := Outcome(host, arguments);
      && (r.scanned.Some? <==> host.toolPath.Some? && !Targets.Failed(Search(host, arguments)))
      && (host.toolPath.None? ==> r.shown == [MissingTool] && r.request.None?)
      && (host.toolPath.Some? && Targets.Failed(Search(host, arguments)) ==> r.shown == [NoTarget] && r.request.None?)
  {
  }

  /** With recognisers that never answer an empty string, a command none of
      whose tokens is recognised as an address or a name never reaches the
      scanner. */
  lemma UnrecognisedCommandIsNotScanned(host: Host, args: Args)
    requires Targets.Clean(host.ipOf, host.hostOf)
    requires forall k :: 0 <= k < |args.tokens| ==> !Targets.Recognised(args.tokens[k], host.ipOf, host.hostOf)
    ensures Outcome(host, Some(args)).scanned.None?
    ensures host.toolPath.Some? ==> Outcome(host, Some(args)).shown == [NoTarget]
  {
    Targets.FailsIffNothingRecognised(args.tokens, host.ipOf, host.hostOf);
  }

  /** With the tool installed and a target resolved, the vector run is the
      built vector for that target and the ports and flags of the text. */
  lemma ScanVector(host: Host, args: Args, target: string)
    requires host.toolPath.Some? && Targets.Target(Search(host, Some(args))) == Some(target)
    ensures Outcome(host, Some(args)).scanned ==
      Some(Command.StripAll(Command.Layout(target, Ports.PortsOf(args.text), Flags.Parameters(args.text))))
  {
  }

  /** When the tool is installed and token `j` is the first one recognised,
      the vector run is built for that token's answer (the IP answer when
      there is one); its last element is that answer stripped, and the `-p`
      argument carries exactly the ports found in the text. */
  lemma ScanUsesFirstHit(host: Host, args: Args, j: nat)
    requires Targets.Clean(host.ipOf, host.hostOf) && host.toolPath.Some?
    requires j < |args.tokens| && Targets.Recognised(args.tokens[j], host.ipOf, host.hostOf)
    requires forall k :: 0 <= k < j ==> !Targets.Recognised(args.tokens[k], host.ipOf, host.hostOf)
    ensures var t := args.tokens[j];
      var target := if Targets.Truthy(host.ipOf(t)) then host.ipOf(t).value else host.hostOf(t).value;
      var ports := Ports.PortsOf(args.text);
      var r := Outcome(host, Some(args));
      && r.scanned == Some(Command.StripAll(Command.Layout(target, ports, Flags.Parameters(args.text))))
      && r.scanned.value[|r.scanned.value| - 1] == Strip(target)
      && (|ports| > 0 ==> SplitOn(r.scanned.value[2], ',') == ports)
  {
    var t := args.tokens[j];
    Targets.TargetIsFirstHit(args.tokens, host.ipOf, host.hostOf, j);
    var target := if Targets.Truthy(host.ipOf(t)) then host.ipOf(t).value else host.hostOf(t).value;
    var ports := Ports.PortsOf(args.text);
    var flags := Flags.Parameters(args.text);
    ScanVector(host, args, target);
    Command.LayoutShape(target, ports, flags);
    if |ports| > 0 {
      Command.PortArgumentRoundTrip(target, ports, flags);
    }
  }

  /** Once a vector is run, the "Running" notice and the question come
      first, and the whole standard output is shown at the end of the last
      message. */
  lemma ScanOutputIsShown(host: Host, arguments: Option<Args>)
    requires Outcome(host, arguments).scanned.Some?
    ensures var r := Outcome(host, arguments);
      && |r.shown| >= 3 && r.shown[0] == Running && r.shown[1] == Router.Prompt
      && Router.EndsWith(r.shown[|r.shown| - 1], host.scan(r.scanned.value))
  {
    var r := Outcome(host, arguments);
    Router.OutputNeverWithheld(Router.Decide(host.answer), host.scan(r.scanned.value), host.chat);
  }

  /** The tokens of the sample port request. */
  const RequestTokens := ["scan", "port", "80", ",", "443", "and", "8080", "on", "10.0.0.5"]

  /** A recogniser that knows one address. */
  function KnowsAddress(t: string): Option<string> {
    if t == "10.0.0.5" then Some(t) else None
  }

  function KnowsNothing(t: string): Option<string> {
    None
  }

  lemma RequestVectorTrimmed()
    ensures Command.StripAll(["nmap", "-p", "80,443,8080", "10.0.0.5"]) == ["nmap", "-p", "80,443,8080", "10.0.0.5"]
  {
    var v := ["nmap", "-p", "80,443,8080", "10.0.0.5"];
    assert Trimmed(v[0]) && Trimmed(v[1]) && Trimmed(v[2]) && Trimmed(v[3]);
    Command.StripAllKeepsTrimmed(v);
  }

  lemma RequestLayout()
    ensures Command.Layout("10.0.0.5", ["80", "443", "8080"], []) == ["nmap", "-p", "80,443,8080", "10.0.0.5"]
  {
    assert Join(["80", "443", "8080"], ",") == "80,443,8080" by {
      assert ["80", "443", "8080"][1..] == ["443", "8080"];
      assert ["443", "8080"][1..] == ["8080"];
    }
  }

  lemma RequestTarget()
    ensures Targets.Walk(RequestTokens, KnowsAddress, KnowsNothing, None, None).ip == Some("10.0.0.5")
  {
    forall k | 0 <= k < 8
      ensures !Targets.Recognised(RequestTokens[k], KnowsAddress, KnowsNothing)
    {
      assert RequestTokens[k] != "10.0.0.5";
    }
    Targets.WalkStopsAtFirstHit(RequestTokens, KnowsAddress, KnowsNothing, None, None, 8);
  }

  lemma RequestFlags()
    ensures Flags.Parameters(Ports.ScanRequest) == []
  {
    var s := Ports.ScanRequest;
    forall k | 0 <= k < |s|
      ensures s[k] != '-'
    {
    }
    Flags.NoDashNoFlags(s);
  }

  /** "scan port 80, 443 and 8080 on 10.0.0.5", with the address recognised
      on its last token, runs `nmap -p 80,443,8080 10.0.0.5`. */
  lemma RequestExample(host: Host, args: Args)
    requires host.toolPath.Some? && host.ipOf == KnowsAddress && host.hostOf == KnowsNothing
    requires args == Args(Ports.ScanRequest, RequestTokens)
    ensures Outcome(host, Some(args)).scanned == Some(["nmap", "-p", "80,443,8080", "10.0.0.5"])
  {
    RequestTarget();
    assert Targets.Target(Search(host, Some(args))) == Some("10.0.0.5");
    Ports.ScanRequestExample();
    RequestFlags();
    ScanVector(host, args, "10.0.0.5");
    RequestLayout();
    RequestVectorTrimmed();
  }
}
