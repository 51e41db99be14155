/** The argument vector of `run_nmap_scan` (nmap.py lines 12-22): the tool
    name, the `-p` pair when there are ports, the flag tokens, the target,
    every element stripped.  The vector is handed to the process as a list,
    never through a shell, so each element reaches `nmap` as one argument. */
module Command {
  import opened PyText

  const Tool := "nmap"

  /** Lines 14-19: the vector before stripping.  Empty `ports` and
      `arguments` are falsy in Python and leave their part out, exactly as
      `None` does. */
  function Layout(target: string, ports: seq<string>, arguments: seq<string>): seq<string> {
    [Tool] + (if |ports| > 0 then ["-p", Join(ports, ",")] else []) + arguments + [target]
  }

  /** Line 22: every element stripped, one for one. */
  function StripAll(v: seq<string>): seq<string> {
    seq(|v|, k requires 0 <= k < |v| => Strip(v[k]))
  }

  /** Where the flag tokens start in the vector. */
  function FlagsStart(ports: seq<string>): nat {
    if |ports| > 0 then 3 else 1
  }

  /** Lines 14-22. */
  method BuildCommand(target: string, ports: seq<string>, arguments: seq<string>) returns (argv: seq<string>)
    ensures argv == StripAll(Layout(target, ports, arguments))
  {
    var command := [Tool];
    if |ports| > 0 {
      command := command + ["-p", Join(ports, ",")];
    }
    if |arguments| > 0 {
      command := command + arguments;
    }
    command := command + [target];
    assert command == Layout(target, ports, arguments);
    argv := StripAll(command);
  }

  /** Stripping commutes with taking a slice. */
  lemma StripAllSlice(v: seq<string>, a: nat, b: nat)
    requires a <= b <= |v|
    ensures StripAll(v)[a..b] == StripAll(v[a..b])
  {
    var l, r := StripAll(v)[a..b], StripAll(v[a..b]);
    assert |l| == b - a == |r|;
    forall k | 0 <= k < b - a ensures l[k] == r[k] {
      assert l[k] == Strip(v[a + k]);
    }
  }

  /** Where each part sits in the vector before stripping. */
  lemma LayoutParts(target: string, ports: seq<string>, arguments: seq<string>)
    ensures var v := Layout(target, ports, arguments);
      && |v| == 2 + (if |ports| > 0 then 2 else 0) + |arguments|
      && v[0] == Tool && v[|v| - 1] == target
      && (|ports| > 0 ==> v[1] == "-p" && v[2] == Join(ports, ","))
      && v[FlagsStart(ports)..|v| - 1] == arguments
  {
  }

  lemma ToolTrimmed()
    ensures Strip(Tool) == Tool
  {
    StripTrimmed(Tool);
  }

  /** The built vector has the tool name first, the `-p` pair next when
      there are ports, then the flags in their given order and the target
      last, each stripped; nothing else is added or dropped. */
  lemma LayoutShape(target: string, ports: seq<string>, arguments: seq<string>)
    ensures var argv := StripAll(Layout(target, ports, arguments));
      && |argv| == 2 + (if |ports| > 0 then 2 else 0) + |arguments|
      && argv[0] == Tool && argv[|argv| - 1] == Strip(target)
      && (|ports| > 0 ==> argv[1] == "-p" && argv[2] == Strip(Join(ports, ",")))
      && argv[FlagsStart(ports)..|argv| - 1] == StripAll(arguments)
  {
    var v := Layout(target, ports, arguments);
    LayoutParts(target, ports, arguments);
    ToolTrimmed();
    StripAllSlice(v, FlagsStart(ports), |v| - 1);
    if |ports| > 0 {
      StripTrimmed("-p");
    }
  }

  /** Stripping keeps the count and the order of the elements, and keeps
      the inside of each element: an element whose ends are not whitespace
      passes through unchanged, whatever spaces or `;` it holds. */
  lemma StripAllKeepsTrimmed(v: seq<string>)
    requires forall k :: 0 <= k < |v| ==> Trimmed(v[k])
    ensures StripAll(v) == v
  {
    forall k | 0 <= k < |v| ensures Strip(v[k]) == v[k] {
      StripTrimmed(v[k]);
    }
  }

  /** A joined list of digit strings is already stripped. */
  lemma {:induction false} JoinedDigitsTrimmed(ports: seq<string>)
    requires |ports| > 0
    requires forall k :: 0 <= k < |ports| ==> IsDigits(ports[k])
    ensures |Join(ports, ",")| > 0 && IsDigit(Join(ports, ",")[0])
    ensures IsDigit(Join(ports, ",")[|Join(ports, ",")| - 1])
    decreases |ports|
  {
    if |ports| > 1 {
      JoinedDigitsTrimmed(ports[1..]);
    }
  }

  /** The `-p` argument carries the port list without loss: splitting it on
      commas gives back exactly the ports, in order. */
  lemma PortArgumentRoundTrip(target: string, ports: seq<string>, arguments: seq<string>)
    requires |ports| > 0
    requires forall k :: 0 <= k < |ports| ==> IsDigits(ports[k])
    ensures SplitOn(StripAll(Layout(target, ports, arguments))[2], ',') == ports
  {
    var joined := Join(ports, ",");
    var v := Layout(target, ports, arguments);
    LayoutParts(target, ports, arguments);
    JoinedDigitsTrimmed(ports);
    StripTrimmed(joined);
    assert StripAll(v)[2] == Strip(v[2]) == joined;
    forall k | 0 <= k < |ports| ensures ',' !in ports[k] {
      assert forall m :: 0 <= m < |ports[k]| ==> ports[k][m] != ',';
    }
    JoinSplitRoundTrip(ports, ',');
  }

  /** The vector for target `10.0.0.5`, ports 80 and 443 and flag `-sV`. */
  lemma LayoutExample()
    ensures StripAll(Layout("10.0.0.5", ["80", "443"], ["-sV"])) == ["nmap", "-p", "80,443", "-sV", "10.0.0.5"]
  {
    assert Join(["80", "443"], ",") == "80,443" by {
      assert ["80", "443"][1..] == ["443"];
    }
    assert Layout("10.0.0.5", ["80", "443"], ["-sV"]) == ["nmap", "-p", "80,443", "-sV", "10.0.0.5"];
    StripAllKeepsTrimmed(["nmap", "-p", "80,443", "-sV", "10.0.0.5"]);
  }

  /** The trailing whitespace a short flag brings from the flag extractor
      is stripped, and a target holding a space and a `;` stays one element,
      unchanged and last. */
  lemma StripExample()
    ensures StripAll(Layout("a; b", [], ["-sV "])) == ["nmap", "-sV", "a; b"]
  {
    var v := Layout("a; b", [], ["-sV "]);
    assert v == ["nmap", "-sV ", "a; b"];
    assert Strip(v[0]) == "nmap" by { ToolTrimmed(); }
    assert Strip(v[1]) == "-sV" by { FlagLosesTrailingSpace(); }
    assert Strip(v[2]) == "a; b" by { StripTrimmed("a; b"); }
    StripAllOfThree(v);
  }

  lemma StripAllOfThree(v: seq<string>)
    requires |v| == 3
    ensures StripAll(v) == [Strip(v[0]), Strip(v[1]), Strip(v[2])]
  {
    var r := StripAll(v);
    assert |r| == 3;
    assert r[0] == Strip(v[0]);
    assert r[1] == Strip(v[1]);
    assert r[2] == Strip(v[2]);
  }

  lemma FlagLosesTrailingSpace()
    ensures Strip("-sV ") == "-sV"
  {
    assert "-sV " == [] + "-sV" + " ";
    StripUnwraps([], "-sV", " ");
  }
}
