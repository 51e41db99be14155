# nmap plugin: a verified model of its text pipeline

The plugin (`nmap.py`) lets a chat assistant run port scans. Its entry
point `run` does four things in order:

- it checks that `nmap` is installed;
- it reads the user's command and picks a target: the first token that the
  host recognises as an IP address, or failing that as a hostname;
- it picks up port numbers from every "port"/"ports" clause, and flags
  with `get_nmap_parameters`, a `re.findall` over four alternatives;
- it builds and strips an argument vector (`run_nmap_scan`), has the
  process run, and then, depending on the user's "analyze"/"raw" answer,
  either sends the output to the chat service for a summary or shows it
  raw.

This project models that pipeline in Dafny:

| module | file | models |
|---|---|---|
| `PyText` | pytext.dfy | the parts of Python's `str` and `re` the plugin uses: `\s` and `isspace` (full Python whitespace set), `\d`, `\w`, `strip`, `lower`, `join`, `isdigit`, and a split at every character of a class, used both for `split` on one character (the inverse of `join`) and for the reference cut of the port clauses |
| `Command` | command.dfy | the vector builder of `run_nmap_scan`, as a method that extends a sequence step by step and then strips every element |
| `Flags` | flags.dfy | `get_nmap_parameters`: one recogniser per alternative, tried in pattern order, plus the scanner `findall` runs; proved equal to the unique span sequence meeting `findall`'s promise |
| `Ports` | ports.dfy | the port loop of `run`: the case-insensitive clause scanner (`finditer`), characterised clause by clause and proved equal to the unique group sequence meeting `finditer`'s promise, `re.split` on `\s*,\s*\|\s+and\s+\|\s+`, and the `isdigit` filter loop; the split is proved to keep the same digit pieces as cutting at every whitespace character and comma |
| `Targets` | targets.dfy | the token walk with the walrus `or` and `break`, and the target choice after it |
| `Router` | router.dfy | the normalised answer, the branch it selects, the chat request and the messages shown |
| `Plugin` | plugin.dfy | `run` as a method over a record of host services, proved equal to a functional specification `Outcome` |

Every service the plugin gets from its host is a parameter of the model:

- the executable lookup;
- the IP and hostname recognisers;
- the process run (a function from the vector to its standard output);
- the user's answer;
- the chat service (a function from the request to a reply text and an
  HTTP status).

What the plugin prints, together with the question `input` prints before
reading the answer, is returned as a sequence of messages.

Where the comments in `nmap.py` and the code disagree, the model follows the
code. Three cases stand out:

- A short flag keeps the whitespace character after it (`"-sV "`); the
  builder strips it later.
- `--version-intensity=5` gives only `--version`, because `\w` does not
  match `-`.
- `\b-T[0-5]\b` never matches after a space. A `-T4` there is caught by
  the short-flag alternative, and only when whitespace or the end of the
  text follows it.

The installed-tool check happens in `run`, not in the builder.

## Model

| member | source | states |
|---|---|---|
| Command.BuildCommand | nmap.py:12-22 | the vector built by extending and appending, then stripping element by element, is `StripAll(Layout(target, ports, arguments))` |
| Command.LayoutShape | nmap.py:14-22 | the built vector has 2 + (2 if there are ports) + \|arguments\| elements; `nmap` is first; when there are ports, `-p` and the stripped comma-joined ports come next; then the stripped flags in their given order; then the stripped target last |
| Command.StripAllKeepsTrimmed | nmap.py:22 | stripping keeps count, order and inner text: a vector whose elements have no whitespace at either end comes out unchanged |
| Command.PortArgumentRoundTrip | nmap.py:16 | when every port is a digit string, splitting the `-p` argument on commas gives back exactly the ports, in order |
| Command.LayoutExample | nmap.py:14-22 | target 10.0.0.5, ports 80 and 443, flag `-sV` give `["nmap", "-p", "80,443", "-sV", "10.0.0.5"]` |
| Command.StripExample | nmap.py:22 | a flag `"-sV "` loses its trailing space; a target `"a; b"` stays one element, unchanged and last |
| PyText.StripSurround | nmap.py:22 | `strip` returns the slice of its input between a whitespace prefix and a whitespace suffix |
| PyText.StripIsTrimmed | nmap.py:22 | the result of `strip` has no whitespace at either end |
| PyText.StripIdempotent | nmap.py:22 | stripping twice is stripping once |
| PyText.StripIgnoresPadding | nmap.py:77 | whitespace around a string does not change its strip |
| PyText.LowerStrip | nmap.py:77 | `s.strip().lower()` equals `s.lower().strip()` |
| PyText.JoinSplitRoundTrip | nmap.py:16 | splitting `c.join(xs)` on `c` gives back `xs` when no element contains `c` |
| Flags.SpansAreFindAll | nmap.py:35-41 | the scanner's spans are ordered and do not overlap; each starts with `-`, is at least two characters long, and is the alternation's match at its start; every position where the alternation matches lies inside a span |
| Flags.FindAllIsUnique | nmap.py:35-41 | any span sequence meeting that promise is the scanner's, so the promise determines the result |
| Flags.ShortFlagAtIff | nmap.py:37 | the short-flag alternative matches from `i` to `j` exactly when the text there is `-`, then one or two ASCII letters or digits, then either one whitespace character inside the match or the end of the text |
| Flags.ShortFlagIgnoresPrefix | nmap.py:37 | what precedes the `-` does not change whether or where a short flag matches |
| Flags.TimingAfterSpaceIsShortFlag | nmap.py:37-39 | at the start of the text or after whitespace, `-T0`..`-T5` is never a timing match; the alternation gives the short-flag result, which matches exactly when whitespace or the end of the text follows |
| Flags.LongFlagAtIff | nmap.py:38 | the long-flag alternative matches from `i` to `j` exactly when the text there is `--`, the maximal run of word characters, then, when an `=` with a non-whitespace character follows, the `=` and the maximal non-whitespace run; at `--` the alternation's match is the long flag's |
| Flags.PortRangeAtIff | nmap.py:36-37 | the port alternative matches from `i` to `j` exactly when the text there is `-p`, any whitespace, then a maximal non-empty run of digits, commas and hyphens; at `-p` it takes precedence, and the short-flag alternative is tried only when it fails |
| Flags.PortListExample | nmap.py:36 | `"-p 80,443 -sV"` yields `["-p 80,443", "-sV"]` |
| Flags.PortWordExample | nmap.py:36-37 | `"-p x"` yields `["-p "]` through the short-flag alternative |
| Flags.NoDashNoFlags | nmap.py:34-42 | text without `-` yields no flags |
| Flags.ScriptScanExample | nmap.py:35-41 | `"-sV --script=vuln -T4"` yields `["-sV ", "--script=vuln", "-T4"]` |
| Flags.IntensityExample | nmap.py:38 | `"--version-intensity=5"` yields only `["--version"]` |
| Flags.GluedExample | nmap.py:37 | `"foo-sV bar"` yields `["-sV "]` |
| Flags.TimingWordExample | nmap.py:39 | `"a-T4."` yields `["-T4"]` through the timing alternative |
| Flags.TimingCommaExample | nmap.py:37-39 | `"-T4,"` yields nothing |
| Flags.Parameters | nmap.py:34-42 | every extracted flag is at least two characters long and begins with `-` |
| Ports.ExtractPorts | nmap.py:59-66 | the nested loop over clauses and split pieces returns `PortsOf(text)`, and every port in it is a non-empty string of ASCII digits |
| Ports.KeepDigits | nmap.py:64-66 | the inner loop appends exactly the all-digit pieces, in order |
| Ports.SplitKeepsDigitPieces | nmap.py:64-66 | splitting a clause on the separator and keeping the all-digit pieces gives the same ports as cutting at every whitespace character and comma |
| Ports.ClauseAtSpec | nmap.py:60 | a clause match has its cue, then whitespace (after an optional `s`) up to the group; the character before the group is whitespace, and every group character is a digit, whitespace, comma or a letter of `and` |
| Ports.ClauseStart | nmap.py:60 | after a cue and its whitespace up to `u`, a clause matches exactly when there is whitespace and either a digit, whitespace or comma follows it or the whitespace is at least two characters (`\s+` gives one back); the group starts at `u` or one before; from there it is a chain of maximal `[\d\s,]` runs joined by `and`, and it ends where neither the character class nor an `and` continuation can extend it |
| Ports.ChainEndUnique | nmap.py:60 | a chain that cannot be extended ends exactly where the scanner ends the group, so the two facts above fix the group's end |
| Ports.AndClauseExample | nmap.py:60 | in `"port 80 and 5"` the group runs through `and` to the end, `80 and 5` |
| Ports.SpacedCueExample | nmap.py:60 | in `"port  x"` the group is the one space `\s+` gives back |
| Ports.ClausesAreFindIter | nmap.py:60-61 | the scanner's groups meet `finditer`'s promise: each is the leftmost match from where the previous one ended, and no match follows the last |
| Ports.FindIterIsUnique | nmap.py:60-61 | any group sequence meeting that promise is the scanner's |
| Ports.NoCueNoPorts | nmap.py:60-61 | a text with no word-initial, case-insensitive `port` yields no ports |
| Ports.ScanRequestExample | nmap.py:60-66 | `"scan port 80, 443 and 8080 on 10.0.0.5"` yields `["80", "443", "8080"]` |
| Targets.SearchTokens | nmap.py:50-57 | the loop with its `break` leaves `ip_address` and `hostname` as the recursive walk `Walk` gives them |
| Targets.Target | nmap.py:67-71 | there is no target exactly when both variables are `None`; otherwise the IP answer when it is not `None`, else the hostname |
| Targets.WalkStopsAtFirstHit | nmap.py:55-57 | the walk stops at the first token with a truthy answer; the IP answer is that token's; the hostname is that token's unless the stop was on the IP answer, in which case it is the previous token's |
| Targets.TargetIsFirstHit | nmap.py:55-57 | with recognisers that never answer `""`, the target is the first recognised token's answer, the IP answer winning on that token |
| Targets.FailsIffNothingRecognised | nmap.py:55-57 | with such recognisers, resolution fails if and only if no token is recognised |
| Targets.EmptyAnswerIsATarget | nmap.py:56-71 | for a sole token whose IP answer is `""` and whose hostname answer is falsy, the walk does not stop, yet `""` passes the `is None` test and becomes the target |
| Targets.EmptyIpBeatsHostname | nmap.py:56-71 | when the first recognised token's IP answer is `""`, the walk stops on its hostname answer, yet the target is `""` |
| Targets.UnrecognisedTarget | nmap.py:55-71 | when no token is recognised, the target is the last token's IP answer if it is not `None`, else its hostname answer, so it is `None` or `""` and an earlier empty answer is overwritten |
| Router.OutputNeverWithheld | nmap.py:79-91 | on every branch one or two messages are shown and the last ends with the whole scan output; the chat service is asked exactly on the "analyze" branch, with the prefix and the whole output |
| Router.AnalyzeShowsReplyOnlyOnOk | nmap.py:80-86 | the chat reply is shown only with status 200; any other status shows `Issue with server. `; the results follow either way |
| Router.InvalidFallsBackToRaw | nmap.py:89-91 | an unrecognised answer shows the invalid-choice notice and then exactly what the "raw" branch shows |
| Router.DecideIgnoresPadding | nmap.py:77 | whitespace around the answer does not change the branch |
| Router.DecideIgnoresCase | nmap.py:77 | answers equal after lower-casing take the same branch |
| Router.KeywordsInAnyCase | nmap.py:77-87 | `analyze` and `raw`, in any case and with any whitespace around them, select their branches |
| Router.InvalidAnswers | nmap.py:76-89 | an empty answer and `raw data` are invalid |
| Plugin.Run | nmap.py:45-91 | the entry point, run step by step, produces exactly the report `Outcome(host, arguments)` |
| Plugin.ScanNeedsToolAndTarget | nmap.py:47-73 | a vector is run if and only if the tool is installed and a target was resolved; otherwise only the matching apology is shown and the chat service is not asked |
| Plugin.UnrecognisedCommandIsNotScanned | nmap.py:67-68 | with recognisers that never answer `""`, a command none of whose tokens is recognised is never scanned, and the only message is the no-target apology |
| Plugin.ScanVector | nmap.py:71-73 | the vector run is the built vector for the resolved target and the ports and flags of the text |
| Plugin.ScanUsesFirstHit | nmap.py:55-73 | with recognisers that never answer `""`, the vector ends with the first recognised token's answer, stripped, and its `-p` argument splits back into exactly the ports found |
| Plugin.ScanOutputIsShown | nmap.py:70-91 | once a vector is run, "Running" is shown first, then the question asking for `analyze` or `raw`, and the last message ends with the whole scan output |
| Plugin.RequestExample | nmap.py:45-73 | the port request with its address recognised on the last token runs `["nmap", "-p", "80,443,8080", "10.0.0.5"]` |

## Left out

- Running the process (nmap.py:25-31) is left out: it is process I/O. The
  host's `scan` parameter stands for its standard output; standard error is
  discarded by `run` in any case.
- `input()`, `print_message` and `llm_chat` are interactive and network
  I/O. They become the `answer` and `chat` parameters, and the returned
  list of messages; the question `input` prints is one of those messages.
- `get_command_path`, `get_ip_address` and `get_hostname` are foreign code.
  They become parameters, so an exception raised inside them is not
  modelled.
- The `navi_instance` global is ambient host state and is not modelled.
- Letters and digits are ASCII only. Python's Unicode `\d`, `\w`, `\b` and
  `isdigit` (superscript digits, other scripts) are not modelled. The same
  goes for the full Unicode mapping of `str.lower`. The router's decision
  does not depend on it, because `analyze` and `raw` have no letter that a
  non-ASCII character lowers to. Whitespace is Python's full set, and the
  long `s` (U+017F) that `re.IGNORECASE` folds to `s` is modelled.
- Plugin.Run: the command object's truthiness (`if arguments:`) is modelled
  as its presence. A command with no tokens takes the same path either
  way: no target, so only the apology is shown.
- Targets.TargetIsFirstHit, Targets.FailsIffNothingRecognised,
  Plugin.UnrecognisedCommandIsNotScanned, Plugin.ScanUsesFirstHit: these
  assume recognisers that never answer the empty string. The as-written behaviour
  for such answers is stated separately: by Targets.EmptyIpBeatsHostname on
  the first recognised token, by Targets.UnrecognisedTarget when no token is
  recognised, and by Targets.EmptyAnswerIsATarget for a sole token.
- A general regular-expression engine is left out. Only the patterns at
  nmap.py:36-39, 60 and 64 are modelled, by hand-written recognisers that
  follow their greedy and backtracking behaviour.
