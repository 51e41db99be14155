/** The end of `run` (nmap.py lines 75-91): the user's answer to the
    "analyze or raw" question decides whether the scan output goes to the
    host's chat service for a summary or is shown as it is.  The answer and
    the chat service are parameters; the messages the plugin would print
    are returned in order. */
module Router {
  import opened Wrappers
  import opened PyText

  datatype Choice = Analyze | Raw | Invalid

  /** Line 77: the answer stripped and lower-cased. */
  function Normalize(answer: string): string {
    LowerStr(Strip(answer))
  }

  /** Lines 79, 87 and 89: the branch taken. */
  function Decide(answer: string): Choice {
    var c := Normalize(answer);
    if c == "analyze" then Analyze else if c == "raw" then Raw else Invalid
  }

  /** Lines 76-77: the question `input` prints before reading the answer. */
  const Prompt := "\nScan done! Would you like me to analyze the results or just see the raw output? (type 'analyze' or 'raw'): "

  const HttpOk := 200
  const ChatPrefix := "Please analyze and summarize the results of this nmap scan: "
  const ServerIssue := "Issue with server. "
  const ResultsLead := "Here are the results: "
  const RawLead := "\nHere are the raw results:\n"
  const InvalidNotice := "Invalid choice. Showing raw results by default.\n"

  /** What the chat service answers: a text and an HTTP status. */
  datatype Reply = Reply(text: string, status: int)

  /** The request sent to the chat service, if any, and the messages shown. */
  datatype Outcome = Outcome(request: Option<string>, shown: seq<string>)

  /** Lines 79-91 once the branch is known. */
  function Respond(choice: Choice, stdout: string, chat: string -> Reply): Outcome {
    match choice
    case Analyze =>
      var reply := chat(ChatPrefix + stdout);
      Outcome(Some(ChatPrefix + stdout),
              [(if reply.status == HttpOk then reply.text else ServerIssue) + ResultsLead + stdout])
    case Raw => Outcome(None, [RawLead + stdout])
    case Invalid => Outcome(None, [InvalidNotice, RawLead + stdout])
  }

  /** Lines 76-91: the answer decides the branch. */
  function Route(answer: string, stdout: string, chat: string -> Reply): Outcome {
    Respond(Decide(answer), stdout, chat)
  }

  predicate EndsWith(s: string, suffix: string) {
    |suffix| <= |s| && s[|s| - |suffix|..] == suffix
  }

  /** Whatever the branch and whatever the chat service does, the raw scan
      output is shown, at the end of the last message; the chat service is
      asked exactly on the "analyze" branch, and then it is given the whole
      output. */
  lemma OutputNeverWithheld(choice: Choice, stdout: string, chat: string -> Reply)
    ensures var o := Respond(choice, stdout, chat);
      && 0 < |o.shown| <= 2
      && EndsWith(o.shown[|o.shown| - 1], stdout)
      && (o.request.Some? <==> choice == Analyze)
      && (o.request.Some? ==> o.request.value == ChatPrefix + stdout)
  {
    var o := Respond(choice, stdout, chat);
    var last := o.shown[|o.shown| - 1];
    assert last[|last| - |stdout|..] == stdout;
  }

  /** Line 85: the chat text is shown only with status 200; any other
      status shows the server notice instead, still followed by the output. */
  lemma AnalyzeShowsReplyOnlyOnOk(stdout: string, chat: string -> Reply)
    ensures var reply := chat(ChatPrefix + stdout);
      Respond(Analyze, stdout, chat).shown ==
        if reply.status == 200 then [reply.text + ResultsLead + stdout]
        else [ServerIssue + ResultsLead + stdout]
  {
  }

  /** Lines 89-91: an unrecognised answer shows the notice and then exactly
      what the "raw" branch shows. */
  lemma InvalidFallsBackToRaw(stdout: string, chat: string -> Reply)
    ensures Respond(Invalid, stdout, chat).shown == [InvalidNotice] + Respond(Raw, stdout, chat).shown
  {
  }

  /** Whitespace around the answer does not change the branch. */
  lemma DecideIgnoresPadding(pre: string, answer: string, post: string)
    requires AllSpace(pre) && AllSpace(post)
    ensures Decide(pre + answer + post) == Decide(answer)
  {
    StripIgnoresPadding(pre, answer, post);
  }

  /** Answers that differ only in the case of their letters take the same
      branch. */
  lemma DecideIgnoresCase(a: string, b: string)
    requires LowerStr(a) == LowerStr(b)
    ensures Decide(a) == Decide(b)
  {
    LowerStrip(a);
    LowerStrip(b);
  }

  /** The keywords are already lower case and trimmed. */
  lemma DecideKeywords()
    ensures LowerStr("analyze") == "analyze" && LowerStr("raw") == "raw"
    ensures Decide("analyze") == Analyze && Decide("raw") == Raw
  {
    StripTrimmed("analyze");
    StripTrimmed("raw");
    assert LowerStr("analyze") == "analyze";
    assert LowerStr("raw") == "raw";
  }

  /** The keywords are recognised in any mix of upper and lower case and
      with any whitespace around them. */
  lemma KeywordsInAnyCase(pre: string, s: string, post: string)
    requires AllSpace(pre) && AllSpace(post)
    ensures LowerStr(s) == "analyze" ==> Decide(pre + s + post) == Analyze
    ensures LowerStr(s) == "raw" ==> Decide(pre + s + post) == Raw
  {
    DecideIgnoresPadding(pre, s, post);
    DecideKeywords();
    if LowerStr(s) == "analyze" {
      DecideIgnoresCase(s, "analyze");
    } else if LowerStr(s) == "raw" {
      DecideIgnoresCase(s, "raw");
    }
  }

  lemma RawDataTrimmed()
    ensures Strip("raw data") == "raw data"
  {
    StripTrimmed("raw data");
  }

  /** An empty answer, or one with more than the keyword, is invalid. */
  lemma InvalidAnswers()
    ensures Decide("") == Invalid
    ensures Decide("raw data") == Invalid
  {
    RawDataTrimmed();
    assert |Normalize("raw data")| == 8;
  }
}
