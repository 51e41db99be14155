/** `get_nmap_parameters` (nmap.py lines 34-42): `re.findall` of the
    alternation
        -p\s*[\d,-]+  |  -[A-Za-z0-9]{1,2}(?:\s|$)  |  --\w+(?:=\S+)?  |  \b-T[0-5]\b
    written as one recogniser per alternative, tried in that order at each
    position, and a scanner that restarts after each match or moves one
    character on when nothing matches. */
module Flags {
  import opened Wrappers
  import opened PyText

  /** `[\d,-]`. */
  predicate IsPortListChar(c: char) { IsDigit(c) || c == ',' || c == '-' }

  /** Line 36: `-p`, optional whitespace, then at least one of `[\d,-]`;
      the result is the end of the match. */
  function PortRangeAt(s: string, i: nat): (r: Option<nat>)
    requires i <= |s|
  {
    if i + 2 <= |s| && s[i] == '-' && s[i + 1] == 'p' then
      var j := RunEnd(s, i + 2, IsSpace);
      var k := RunEnd(s, j, IsPortListChar);
      if j < k then Some(k) else None
    else None
  }

  /** Line 37: `-`, one or two ASCII letters or digits, then one whitespace
      character (taken into the match) or the end of the text.  Nothing is
      required before the `-`. */
  function ShortFlagAt(s: string, i: nat): (r: Option<nat>)
    requires i <= |s|
  {
    if i + 2 <= |s| && s[i] == '-' && IsAlnum(s[i + 1]) then
      var j := if i + 2 < |s| && IsAlnum(s[i + 2]) then i + 3 else i + 2;
      if j == |s| then Some(j)
      else if IsSpace(s[j]) then Some(j + 1)
      else None
    else None
  }

  /** Line 38: `--`, a run of word characters, then `=` and a run of
      non-whitespace if there is one. */
  function LongFlagAt(s: string, i: nat): (r: Option<nat>)
    requires i <= |s|
  {
    if i + 3 <= |s| && s[i] == '-' && s[i + 1] == '-' && IsWord(s[i + 2]) then
      var j := RunEnd(s, i + 2, IsWord);
      if j + 2 <= |s| && s[j] == '=' && IsNonSpace(s[j + 1]) then Some(RunEnd(s, j + 1, IsNonSpace))
      else Some(j)
    else None
  }

  /** Line 39: `-T` and a digit 0-5 with a word boundary on both sides; as
      `-` is not a word character, the one before it needs a word character
      right before the `-`. */
  function TimingAt(s: string, i: nat): (r: Option<nat>)
    requires i <= |s|
  {
    if 0 < i && i + 3 <= |s| && IsWord(s[i - 1]) && s[i] == '-' && s[i + 1] == 'T'
       && '0' <= s[i + 2] <= '5' && (i + 3 == |s| || !IsWord(s[i + 3]))
    then Some(i + 3)
    else None
  }

  /** The whole alternation at position `i`: the first alternative that matches. */
  function FlagAt(s: string, i: nat): (r: Option<nat>)
    requires i <= |s|
    ensures r.Some? ==> i + 2 <= r.value <= |s| && s[i] == '-'
  {
    if PortRangeAt(s, i).Some? then PortRangeAt(s, i)
    else if ShortFlagAt(s, i).Some? then ShortFlagAt(s, i)
    else if LongFlagAt(s, i).Some? then LongFlagAt(s, i)
    else TimingAt(s, i)
  }

  /** The spans of `s` lie at or after `i`, each at least two characters long
      and starting with `-`, each ending no later than the next one starts. */
  ghost predicate Ordered(s: string, i: nat, sp: seq<(nat, nat)>) {
    (forall k :: 0 <= k < |sp| ==> i <= sp[k].0 && sp[k].0 + 2 <= sp[k].1 <= |s| && s[sp[k].0] == '-')
    && (forall a, b :: 0 <= a < b < |sp| ==> sp[a].1 <= sp[b].0)
  }

  /** The spans `findall` reports from position `i` on. */
  function Spans(s: string, i: nat): (sp: seq<(nat, nat)>)
    requires i <= |s|
    ensures Ordered(s, i, sp)
    decreases |s| - i
  {
    if i == |s| then []
    else match FlagAt(s, i)
      case Some(j) => [(i, j)] + Spans(s, j)
      case None => Spans(s, i + 1)
  }

  /** Each span is what the alternation matches at the span's start. */
  ghost predicate AreMatches(s: string, sp: seq<(nat, nat)>) {
    forall k :: 0 <= k < |sp| ==> sp[k].0 <= |s| && FlagAt(s, sp[k].0) == Some(sp[k].1)
  }

  /** The alternation matches at position `p`. */
  ghost predicate MatchesAt(s: string, p: nat) {
    p <= |s| && FlagAt(s, p).Some?
  }

  ghost predicate Covered(p: nat, sp: seq<(nat, nat)>) {
    exists k :: 0 <= k < |sp| && sp[k].0 <= p < sp[k].1
  }

  /** Every position from `i` on where the alternation matches lies inside a span. */
  ghost predicate MissesNothing(s: string, i: nat, sp: seq<(nat, nat)>) {
    forall p :: i <= p < |s| && MatchesAt(s, p) ==> Covered(p, sp)
  }

  /** What `findall` promises, stated without scanning: the spans are in
      order and do not overlap, each is the alternation's match at its start,
      and every position where the alternation matches lies inside a span. */
  ghost predicate IsFindAll(s: string, i: nat, sp: seq<(nat, nat)>) {
    Ordered(s, i, sp) && AreMatches(s, sp) && MissesNothing(s, i, sp)
  }

  lemma {:induction false} SpansAreMatches(s: string, i: nat)
    requires i <= |s|
    ensures AreMatches(s, Spans(s, i))
    decreases |s| - i
  {
    if i < |s| {
      var f := FlagAt(s, i);
      if f.Some? {
        SpansAreMatches(s, f.value);
        assert Spans(s, i) == [(i, f.value)] + Spans(s, f.value);
        MatchesCons(s, i, f.value, Spans(s, f.value));
      } else {
        SpansAreMatches(s, i + 1);
      }
    }
  }

  lemma MatchesCons(s: string, i: nat, j: nat, rest: seq<(nat, nat)>)
    requires i <= |s| && FlagAt(s, i) == Some(j) && AreMatches(s, rest)
    ensures AreMatches(s, [(i, j)] + rest)
  {
    var sp := [(i, j)] + rest;
    forall k | 0 < k < |sp| ensures sp[k].0 <= |s| && FlagAt(s, sp[k].0) == Some(sp[k].1) {
      assert sp[k] == rest[k - 1];
    }
  }

  lemma {:induction false} SpansMissNothing(s: string, i: nat)
    requires i <= |s|
    ensures MissesNothing(s, i, Spans(s, i))
    decreases |s| - i
  {
    if i < |s| {
      var f := FlagAt(s, i);
      if f.Some? {
        SpansMissNothing(s, f.value);
        assert Spans(s, i) == [(i, f.value)] + Spans(s, f.value);
        CoverCons(s, i, f.value, Spans(s, f.value));
      } else {
        SpansMissNothing(s, i + 1);
        assert Spans(s, i) == Spans(s, i + 1);
        CoverSkip(s, i, Spans(s, i + 1));
      }
    }
  }

  /** A span from `i` to `j` covers every match that starts inside it. */
  lemma CoverCons(s: string, i: nat, j: nat, rest: seq<(nat, nat)>)
    requires i < j && MissesNothing(s, j, rest)
    ensures MissesNothing(s, i, [(i, j)] + rest)
  {
    var sp := [(i, j)] + rest;
    forall p | i <= p < |s| && MatchesAt(s, p) ensures Covered(p, sp) {
      if p < j {
        assert sp[0].0 <= p < sp[0].1;
      } else {
        var k :| 0 <= k < |rest| && rest[k].0 <= p < rest[k].1;
        assert sp[k + 1] == rest[k];
      }
    }
  }

  lemma CoverSkip(s: string, i: nat, sp: seq<(nat, nat)>)
    requires i < |s| && !MatchesAt(s, i) && MissesNothing(s, i + 1, sp)
    ensures MissesNothing(s, i, sp)
  {
  }

  /** The scanner does what `findall` promises. */
  lemma SpansAreFindAll(s: string, i: nat)
    requires i <= |s|
    ensures IsFindAll(s, i, Spans(s, i))
  {
    SpansAreMatches(s, i);
    SpansMissNothing(s, i);
  }

  /** Only one span sequence does what `findall` promises, so the promise
      determines the result. */
  lemma {:induction false} FindAllIsUnique(s: string, i: nat, sp: seq<(nat, nat)>)
    requires i <= |s|
    requires IsFindAll(s, i, sp)
    ensures sp == Spans(s, i)
    decreases |s| - i
  {
    if i < |s| {
      match FlagAt(s, i)
      case Some(j) =>
        FirstSpanIsHere(s, i, sp);
        var rest := sp[1..];
        RestIsFindAll(s, i, j, sp);
        FindAllIsUnique(s, j, rest);
        assert sp == [(i, j)] + rest;
      case None =>
        if sp != [] {
          assert sp[0].0 != i;
        }
        assert Ordered(s, i + 1, sp);
        FindAllIsUnique(s, i + 1, sp);
    }
  }

  lemma FirstSpanIsHere(s: string, i: nat, sp: seq<(nat, nat)>)
    requires i < |s| && FlagAt(s, i).Some?
    requires IsFindAll(s, i, sp)
    ensures |sp| > 0 && sp[0] == (i, FlagAt(s, i).value)
  {
    assert MatchesAt(s, i);
    var k :| 0 <= k < |sp| && sp[k].0 <= i < sp[k].1;
  }

  lemma RestIsFindAll(s: string, i: nat, j: nat, sp: seq<(nat, nat)>)
    requires i < |s| && FlagAt(s, i) == Some(j)
    requires IsFindAll(s, i, sp) && |sp| > 0 && sp[0] == (i, j)
    ensures IsFindAll(s, j, sp[1..])
  {
    var rest := sp[1..];
    forall p | j <= p < |s| && MatchesAt(s, p) ensures Covered(p, rest) {
      assert Covered(p, sp);
      var m :| 0 <= m < |sp| && sp[m].0 <= p < sp[m].1;
      assert rest[m - 1] == sp[m];
    }
  }

  /** The text of each span. */
  function Texts(s: string, sp: seq<(nat, nat)>): (r: seq<string>)
    requires forall k :: 0 <= k < |sp| ==> sp[k].0 <= sp[k].1 <= |s|
    ensures |r| == |sp|
    ensures forall k :: 0 <= k < |sp| ==> r[k] == s[sp[k].0..sp[k].1]
  {
    if sp == [] then [] else [s[sp[0].0..sp[0].1]] + Texts(s, sp[1..])
  }

  /** `get_nmap_parameters(s)`: every token is at least two characters long
      and begins with `-`. */
  function Parameters(s: string): (r: seq<string>)
    ensures forall k :: 0 <= k < |r| ==> |r[k]| >= 2 && r[k][0] == '-'
  {
    Texts(s, Spans(s, 0))
  }

  /** Text without a dash yields no flags. */
  lemma NoDashNoFlags(s: string)
    requires forall k :: 0 <= k < |s| ==> s[k] != '-'
    ensures Parameters(s) == []
  {
  }

  /** The shape line 37 accepts: `-`, then one or two ASCII letters or digits,
      then either one whitespace character inside the match or the end of
      the text. */
  ghost predicate ShortFlagMatch(s: string, i: nat, j: nat) {
    i + 2 <= j <= |s| && s[i] == '-'
    && ((j == |s| && j - i <= 3 && forall k :: i < k < j ==> IsAlnum(s[k]))
        || (IsSpace(s[j - 1]) && 3 <= j - i <= 4 && forall k :: i < k < j - 1 ==> IsAlnum(s[k])))
  }

  /** The short-flag recogniser accepts exactly that shape, and the shape
      allows one end only. */
  lemma ShortFlagAtIff(s: string, i: nat, j: nat)
    requires i <= |s|
    ensures ShortFlagAt(s, i) == Some(j) <==> ShortFlagMatch(s, i, j)
  {
    if ShortFlagMatch(s, i, j) {
      if IsSpace(s[j - 1]) && 3 <= j - i <= 4 && forall k :: i < k < j - 1 ==> IsAlnum(s[k]) {
        assert !IsAlnum(s[j - 1]);
      } else {
        assert j == |s|;
      }
    }
  }

  /** No boundary is needed before a short flag: what precedes the `-` does
      not change whether or where the match ends. */
  lemma {:induction false} ShortFlagIgnoresPrefix(pre: string, s: string)
    ensures ShortFlagAt(pre + s, |pre|) == (if ShortFlagAt(s, 0).Some? then Some(|pre| + ShortFlagAt(s, 0).value) else None)
  {
    var t := pre + s;
    assert forall k :: 0 <= k < |s| ==> t[|pre| + k] == s[k];
  }

  /** The timing-template alternative (line 39) only matches right after a
      word character: a `-T4` after whitespace or at the start of the text
      is matched, if at all, by the short-flag alternative (line 37). */
  lemma TimingAfterSpaceIsShortFlag(s: string, i: nat)
    requires i + 3 <= |s| && s[i] == '-' && s[i + 1] == 'T' && '0' <= s[i + 2] <= '5'
    requires i == 0 || IsSpace(s[i - 1])
    ensures TimingAt(s, i) == None
    ensures FlagAt(s, i) == ShortFlagAt(s, i)
    ensures FlagAt(s, i).Some? <==> i + 3 == |s| || IsSpace(s[i + 3])
  {
  }

  /** The parts of a long-flag match from `i` to `j`: `--`, the maximal run of
      word characters up to `m`, then, when an `=` with a non-whitespace
      character after it follows, the `=` and the maximal run of
      non-whitespace characters after it. */
  ghost predicate LongFlagParts(s: string, i: nat, m: nat, j: nat) {
    i + 3 <= m <= j <= |s| && s[i] == '-' && s[i + 1] == '-'
    && (forall k :: i + 2 <= k < m ==> IsWord(s[k]))
    && (m == |s| || !IsWord(s[m]))
    && if j == m then !(m + 1 < |s| && s[m] == '=' && IsNonSpace(s[m + 1]))
       else m + 2 <= j && s[m] == '=' && (forall k :: m < k < j ==> IsNonSpace(s[k]))
            && (j == |s| || IsSpace(s[j]))
  }

  /** Line 38 matches `--name` or `--name=value`, and exactly those parts;
      at a `--` neither earlier alternative can match, so the long flag is
      what the alternation gives there. */
  lemma LongFlagAtIff(s: string, i: nat, j: nat)
    requires i <= |s|
    ensures LongFlagAt(s, i) == Some(j) <==> exists m :: LongFlagParts(s, i, m, j)
    ensures i + 2 <= |s| && s[i] == '-' && s[i + 1] == '-' ==> FlagAt(s, i) == LongFlagAt(s, i)
  {
    if LongFlagAt(s, i) == Some(j) {
      LongFlagHasParts(s, i);
    }
    if exists m :: LongFlagParts(s, i, m, j) {
      var m: nat :| LongFlagParts(s, i, m, j);
      LongFlagFromParts(s, i, m, j);
    }
  }

  lemma LongFlagHasParts(s: string, i: nat)
    requires i <= |s| && LongFlagAt(s, i).Some?
    ensures LongFlagParts(s, i, RunEnd(s, i + 2, IsWord), LongFlagAt(s, i).value)
  {
    var m := RunEnd(s, i + 2, IsWord);
    RunEndSpec(s, i + 2, IsWord);
    if m + 2 <= |s| && s[m] == '=' && IsNonSpace(s[m + 1]) {
      RunEndSpec(s, m + 1, IsNonSpace);
    }
  }

  lemma LongFlagFromParts(s: string, i: nat, m: nat, j: nat)
    requires LongFlagParts(s, i, m, j)
    ensures LongFlagAt(s, i) == Some(j)
  {
    RunEndUnique(s, i + 2, m, IsWord);
    if j != m {
      RunEndUnique(s, m + 1, j, IsNonSpace);
    }
  }

  /** The parts of a port-range match from `i` to `j`: `-p`, the whitespace
      up to `m`, then the maximal, non-empty run of digits, commas and
      hyphens. */
  ghost predicate PortRangeParts(s: string, i: nat, m: nat, j: nat) {
    i + 2 <= m < j <= |s| && s[i] == '-' && s[i + 1] == 'p'
    && (forall k :: i + 2 <= k < m ==> IsSpace(s[k]))
    && (forall k :: m <= k < j ==> IsPortListChar(s[k]))
    && (j == |s| || !IsPortListChar(s[j]))
  }

  /** Line 36 matches exactly those parts, and it is tried before the short
      flag of line 37: at `-p` the alternation gives the port range when
      there is one and the short-flag result otherwise. */
  lemma PortRangeAtIff(s: string, i: nat, j: nat)
    requires i <= |s|
    ensures PortRangeAt(s, i) == Some(j) <==> exists m :: PortRangeParts(s, i, m, j)
    ensures i + 2 <= |s| && s[i] == '-' && s[i + 1] == 'p' ==>
      FlagAt(s, i) == if PortRangeAt(s, i).Some? then PortRangeAt(s, i) else ShortFlagAt(s, i)
  {
    if PortRangeAt(s, i) == Some(j) {
      var m := RunEnd(s, i + 2, IsSpace);
      RunEndSpec(s, i + 2, IsSpace);
      RunEndSpec(s, m, IsPortListChar);
      assert PortRangeParts(s, i, m, j);
    }
    if exists m :: PortRangeParts(s, i, m, j) {
      var m: nat :| PortRangeParts(s, i, m, j);
      assert !IsSpace(s[m]);
      RunEndUnique(s, i + 2, m, IsSpace);
      RunEndUnique(s, m, j, IsPortListChar);
    }
  }

  // Worked examples.  Each scanning step gets its own small lemma so that
  // the solver evaluates one position at a time.

  const ScriptScan := "-sV --script=vuln -T4"

  lemma ScriptScanFirst()
    ensures FlagAt(ScriptScan, 0) == Some(4)
  {
    assert PortRangeAt(ScriptScan, 0) == None;
    assert ShortFlagAt(ScriptScan, 0) == Some(4);
  }

  lemma ScriptScanGap()
    ensures FlagAt(ScriptScan, 17) == None
  {
    assert ScriptScan[17] == ' ';
  }

  lemma ScriptScanLast()
    ensures FlagAt(ScriptScan, 18) == Some(21)
  {
    assert PortRangeAt(ScriptScan, 18) == None;
    assert ShortFlagAt(ScriptScan, 18) == Some(21);
  }

  lemma ScriptScanWord()
    ensures RunEnd(ScriptScan, 6, IsWord) == 12
  {
    assert RunEnd(ScriptScan, 12, IsWord) == 12;
    assert RunEnd(ScriptScan, 11, IsWord) == 12;
    assert RunEnd(ScriptScan, 10, IsWord) == 12;
    assert RunEnd(ScriptScan, 9, IsWord) == 12;
    assert RunEnd(ScriptScan, 8, IsWord) == 12;
    assert RunEnd(ScriptScan, 7, IsWord) == 12;
  }

  lemma ScriptScanValue()
    ensures RunEnd(ScriptScan, 13, IsNonSpace) == 17
  {
    assert RunEnd(ScriptScan, 17, IsNonSpace) == 17;
    assert RunEnd(ScriptScan, 16, IsNonSpace) == 17;
    assert RunEnd(ScriptScan, 15, IsNonSpace) == 17;
    assert RunEnd(ScriptScan, 14, IsNonSpace) == 17;
  }

  lemma ScriptScanLong()
    ensures FlagAt(ScriptScan, 4) == Some(17)
  {
    ScriptScanWord();
    ScriptScanValue();
    assert PortRangeAt(ScriptScan, 4) == None;
    assert ShortFlagAt(ScriptScan, 4) == None;
    assert LongFlagAt(ScriptScan, 4) == Some(17);
  }

  lemma ScriptScanSlices()
    ensures ScriptScan[0..4] == "-sV " && ScriptScan[4..17] == "--script=vuln" && ScriptScan[18..21] == "-T4"
  {
  }

  /** A short flag keeps the whitespace after it; a long flag keeps its
      value; a final `-T4` is a short flag at the end of the text. */
  lemma ScriptScanExample()
    ensures Parameters(ScriptScan) == ["-sV ", "--script=vuln", "-T4"]
  {
    ScriptScanSpans();
    ScriptScanSlices();
  }

  lemma ScriptScanSpans()
    ensures Spans(ScriptScan, 0) == [(0, 4), (4, 17), (18, 21)]
  {
    ScriptScanFirst();
    ScriptScanLong();
    ScriptScanGap();
    ScriptScanLast();
    assert Spans(ScriptScan, 21) == [];
    assert Spans(ScriptScan, 18) == [(18, 21)];
    assert Spans(ScriptScan, 17) == [(18, 21)];
    assert Spans(ScriptScan, 4) == [(4, 17), (18, 21)];
  }

  const Intensity := "--version-intensity=5"

  lemma IntensitySteps()
    ensures FlagAt(Intensity, 0) == Some(9)
  {
    assert RunEnd(Intensity, 9, IsWord) == 9;
    assert RunEnd(Intensity, 6, IsWord) == 9;
    assert RunEnd(Intensity, 2, IsWord) == 9;
  }

  lemma IntensityRest(i: nat)
    requires 9 <= i < |Intensity|
    ensures FlagAt(Intensity, i) == None
  {
  }

  lemma {:induction false} IntensityTail(i: nat)
    requires 9 <= i <= |Intensity|
    ensures Spans(Intensity, i) == []
    decreases |Intensity| - i
  {
    if i < |Intensity| {
      IntensityRest(i);
      IntensityTail(i + 1);
    }
  }

  /** `\w` does not take `-`, so a hyphenated long option stops at its first
      hyphen and the rest of it is not a flag at all. */
  lemma IntensityExample()
    ensures Parameters(Intensity) == ["--version"]
  {
    IntensitySpans();
    assert Intensity[0..9] == "--version";
  }

  lemma IntensitySpans()
    ensures Spans(Intensity, 0) == [(0, 9)]
  {
    IntensitySteps();
    IntensityTail(9);
  }

  const Glued := "foo-sV bar"

  lemma GluedSteps()
    ensures FlagAt(Glued, 0) == None && FlagAt(Glued, 1) == None && FlagAt(Glued, 2) == None
    ensures FlagAt(Glued, 3) == Some(7)
    ensures FlagAt(Glued, 7) == None && FlagAt(Glued, 8) == None && FlagAt(Glued, 9) == None
  {
  }

  /** A short flag needs no boundary before its `-`. */
  lemma GluedExample()
    ensures Parameters(Glued) == ["-sV "]
  {
    GluedSteps();
    assert Spans(Glued, 7) == [];
    assert Spans(Glued, 0) == [(3, 7)];
    assert Glued[3..7] == "-sV ";
  }

  const TimingWord := "a-T4."

  lemma TimingWordSteps()
    ensures FlagAt(TimingWord, 0) == None && FlagAt(TimingWord, 1) == Some(4) && FlagAt(TimingWord, 4) == None
  {
  }

  /** After a word character and before punctuation, `-T4` is caught by the
      timing-template alternative. */
  lemma TimingWordExample()
    ensures Parameters(TimingWord) == ["-T4"]
  {
    TimingWordSteps();
    assert Spans(TimingWord, 0) == [(1, 4)];
    assert TimingWord[1..4] == "-T4";
  }

  const TimingComma := "-T4,"

  /** At the start of the text (or after whitespace) and before punctuation,
      neither the short-flag nor the timing-template alternative matches, so
      this `-T4` is not extracted. */
  lemma TimingCommaExample()
    ensures Parameters(TimingComma) == []
  {
    assert FlagAt(TimingComma, 0) == None && FlagAt(TimingComma, 1) == None;
    assert FlagAt(TimingComma, 2) == None && FlagAt(TimingComma, 3) == None;
  }

  const PortList := "-p 80,443 -sV"

  lemma PortListFirst()
    ensures FlagAt(PortList, 0) == Some(9)
  {
    assert RunEnd(PortList, 9, IsPortListChar) == 9;
    assert RunEnd(PortList, 6, IsPortListChar) == 9;
    assert RunEnd(PortList, 3, IsPortListChar) == 9;
    assert RunEnd(PortList, 2, IsSpace) == 3;
  }

  lemma PortListRest()
    ensures FlagAt(PortList, 9) == None && FlagAt(PortList, 10) == Some(13)
  {
  }

  lemma PortListSpans()
    ensures Spans(PortList, 0) == [(0, 9), (10, 13)]
  {
    PortListFirst();
    PortListRest();
    assert Spans(PortList, 13) == [];
    assert Spans(PortList, 10) == [(10, 13)];
    assert Spans(PortList, 9) == [(10, 13)];
  }

  lemma PortListSlices()
    ensures PortList[0..9] == "-p 80,443" && PortList[10..13] == "-sV"
  {
  }

  /** `-p` with its port list is one token, kept whole with the space
      between `-p` and the list. */
  lemma PortListExample()
    ensures Parameters(PortList) == ["-p 80,443", "-sV"]
  {
    PortListSpans();
    PortListSlices();
  }

  const PortWord := "-p x"

  /** `-p` not followed by a port list falls through to the short-flag
      alternative, which takes `-p` and the space after it. */
  lemma PortWordExample()
    ensures Parameters(PortWord) == ["-p "]
  {
    assert RunEnd(PortWord, 2, IsSpace) == 3;
    assert FlagAt(PortWord, 0) == Some(3);
    assert FlagAt(PortWord, 3) == None;
    assert Spans(PortWord, 0) == [(0, 3)];
    assert PortWord[0..3] == "-p ";
  }
}
