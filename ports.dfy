/** The port extraction in `run` (nmap.py lines 53 and 59-66): `re.finditer`
    of the case-insensitive pattern
        \bports?\s+([\d\s,]+(?:\s*(?:and|,)\s*[\d\s,]*)*)
    then, for each match, `re.split` of group 1 on `\s*,\s*|\s+and\s+|\s+`
    (case-sensitive) and a loop keeping the pieces for which `isdigit()`
    holds. */
module Ports {
  import opened Wrappers
  import opened PyText

  /** `[\d\s,]`. */
  predicate IsClauseChar(c: char) { IsDigit(c) || IsSpace(c) || c == ',' }

  /** A character that `s` matches under `re.IGNORECASE`: either case, and
      U+017F (long s), which Python folds to `s`. */
  predicate IsS(c: char) { c == 's' || c == 'S' || c as int == 0x17F }

  /** `\bport` under `re.IGNORECASE` at position `i`: the `p` is a word
      character, so the boundary needs a non-word character (or nothing)
      before it. */
  predicate CueAt(s: string, i: nat) {
    i + 4 <= |s| && (i == 0 || !IsWord(s[i - 1]))
    && Lower(s[i]) == 'p' && Lower(s[i + 1]) == 'o' && Lower(s[i + 2]) == 'r' && Lower(s[i + 3]) == 't'
  }

  /** `and` under `re.IGNORECASE` at position `e`. */
  predicate AndAt(s: string, e: nat) {
    e + 3 <= |s| && Lower(s[e]) == 'a' && Lower(s[e + 1]) == 'n' && Lower(s[e + 2]) == 'd'
  }

  /** A character that may appear in a captured clause. */
  predicate InClause(c: char) { IsClauseChar(c) || Lower(c) == 'a' || Lower(c) == 'n' || Lower(c) == 'd' }

  /** `(?:\s*(?:and|,)\s*[\d\s,]*)*` from `e`, where a maximal run of
      `[\d\s,]` has just ended: the `\s*` and the `,` cannot match there, so
      each repetition is `and` followed by a maximal run of `[\d\s,]`. */
  function AndTail(s: string, e: nat): (r: nat)
    requires e <= |s|
    ensures e <= r <= |s|
    ensures forall k :: e <= k < r ==> InClause(s[k])
    decreases |s| - e
  {
    if AndAt(s, e) then
      RunEndSpec(s, e + 3, IsClauseChar);
      AndTail(s, RunEnd(s, e + 3, IsClauseChar))
    else e
  }

  /** Where `ports?` ends after a cue at `i`: the optional `s` is taken
      when it is there. */
  function CueEnd(s: string, i: nat): (t: nat)
    requires CueAt(s, i)
    ensures i + 4 <= t <= |s|
  {
    if i + 4 < |s| && IsS(s[i + 4]) then i + 5 else i + 4
  }

  /** The bounds of group 1 when the pattern matches at `i`.  `\s+` is greedy
      but gives back one whitespace character when the group could not
      otherwise start, so a clause whose whitespace run of two or more is
      followed by neither a digit nor a comma captures that one character. */
  function ClauseAt(s: string, i: nat): (r: Option<(nat, nat)>)
    requires i <= |s|
    ensures r.Some? ==> CueAt(s, i) && i + 4 < r.value.0 < r.value.1 <= |s|
  {
    if !CueAt(s, i) then None
    else
      var t := CueEnd(s, i);
      var u := RunEnd(s, t, IsSpace);
      RunEndSpec(s, t, IsSpace);
      RunEndSpec(s, u, IsClauseChar);
      if t < u && u < |s| && IsClauseChar(s[u]) then Some((u, AndTail(s, RunEnd(s, u, IsClauseChar))))
      else if t + 2 <= u then Some((u - 1, AndTail(s, u)))
      else None
  }

  /** A match is the cue, whitespace (after an optional `s`) up to the
      group, and a group made of `[\d\s,]` characters and `and`s. */
  lemma ClauseAtSpec(s: string, i: nat)
    requires i <= |s| && ClauseAt(s, i).Some?
    ensures var (g, e) := ClauseAt(s, i).value;
      && IsSpace(s[g - 1])
      && (forall k :: i + 4 <= k < g ==> IsSpace(s[k]) || (k == i + 4 && IsS(s[k])))
      && (forall k :: g <= k < e ==> InClause(s[k]))
  {
    var t := CueEnd(s, i);
    RunEndSpec(s, t, IsSpace);
    RunEndSpec(s, RunEnd(s, t, IsSpace), IsClauseChar);
  }

  /** The group bounds `finditer` reports from position `i` on, in text
      order and apart from each other. */
  function Clauses(s: string, i: nat): (cs: seq<(nat, nat)>)
    requires i <= |s|
    ensures forall k :: 0 <= k < |cs| ==> i < cs[k].0 < cs[k].1 <= |s|
    ensures forall a, b :: 0 <= a < b < |cs| ==> cs[a].1 < cs[b].0
    decreases |s| - i
  {
    if i == |s| then []
    else match ClauseAt(s, i)
      case Some((g, e)) => [(g, e)] + Clauses(s, e)
      case None => Clauses(s, i + 1)
  }

  /** Where the greedy group may stop: neither a `[\d\s,]` character nor
      `and` follows. */
  predicate GroupEnds(s: string, e: nat) {
    e <= |s| && (e == |s| || !IsClauseChar(s[e])) && !AndAt(s, e)
  }

  /** The group `[\d\s,]+(?:\s*(?:and|,)\s*[\d\s,]*)*` read off the
      pattern, from `a` to `e`: a maximal run of `[\d\s,]`, then either
      the end, or `and` and again a chain from after it.  (After a maximal
      run neither `\s*` nor `,` can take anything, and `\s*[\d\s,]*`
      after `and` is one maximal run.)  The repetition may stop after any
      round; greediness is `GroupEnds`. */
  ghost predicate Chain(s: string, a: nat, e: nat)
    requires a <= |s|
    decreases |s| - a
  {
    var r := RunEnd(s, a, IsClauseChar);
    e == r || (AndAt(s, r) && Chain(s, RunEnd(s, r + 3, IsClauseChar), e))
  }

  /** A chain that cannot go on ends where `AndTail` stops. */
  lemma {:induction false} ChainEndUnique(s: string, a: nat, e: nat)
    requires a <= |s| && Chain(s, a, e) && GroupEnds(s, e)
    ensures e == AndTail(s, RunEnd(s, a, IsClauseChar))
    decreases |s| - a
  {
    var r := RunEnd(s, a, IsClauseChar);
    if e != r {
      var b := RunEnd(s, r + 3, IsClauseChar);
      ChainEndUnique(s, b, e);
      RunEndSpec(s, r + 3, IsClauseChar);
      RunEndUnique(s, b, b, IsClauseChar);
    }
  }

  /** `AndTail` ends a chain. */
  lemma {:induction false} AndTailChain(s: string, a: nat)
    requires a <= |s|
    ensures Chain(s, a, AndTail(s, RunEnd(s, a, IsClauseChar)))
    decreases |s| - a
  {
    var r := RunEnd(s, a, IsClauseChar);
    if AndAt(s, r) {
      var b := RunEnd(s, r + 3, IsClauseChar);
      AndTailChain(s, b);
      RunEndSpec(s, r + 3, IsClauseChar);
      RunEndUnique(s, b, b, IsClauseChar);
    }
  }

  lemma {:induction false} AndTailEnds(s: string, e: nat)
    requires e <= |s| && (e == |s| || !IsClauseChar(s[e]))
    ensures GroupEnds(s, AndTail(s, e))
    decreases |s| - e
  {
    if AndAt(s, e) {
      RunEndSpec(s, e + 3, IsClauseChar);
      AndTailEnds(s, RunEnd(s, e + 3, IsClauseChar));
    }
  }

  /** After a cue at `i` and the whitespace that follows it up to `u`, the
      pattern matches exactly when that whitespace is not empty and is
      followed by a digit or a comma, or is at least two characters long.
      In the first case the group starts at `u`; in the second `\s+` gives
      back one whitespace character and the group starts with it.  Either
      way the group runs as far as the greedy repetition can take it. */
  lemma ClauseStart(s: string, i: nat, u: nat)
    requires CueAt(s, i) && CueEnd(s, i) <= u <= |s|
    requires forall k :: CueEnd(s, i) <= k < u ==> IsSpace(s[k])
    requires u == |s| || !IsSpace(s[u])
    ensures ClauseAt(s, i).Some? <==>
      CueEnd(s, i) < u && ((u < |s| && IsClauseChar(s[u])) || CueEnd(s, i) + 2 <= u)
    ensures ClauseAt(s, i).Some? ==>
      ClauseAt(s, i).value.0 == (if u < |s| && IsClauseChar(s[u]) then u else u - 1)
    ensures ClauseAt(s, i).Some? ==> GroupEnds(s, ClauseAt(s, i).value.1)
    ensures ClauseAt(s, i).Some? ==> Chain(s, ClauseAt(s, i).value.0, ClauseAt(s, i).value.1)
  {
    var t := CueEnd(s, i);
    RunEndUnique(s, t, u, IsSpace);
    if t < u && u < |s| && IsClauseChar(s[u]) {
      RunEndSpec(s, u, IsClauseChar);
      AndTailEnds(s, RunEnd(s, u, IsClauseChar));
      AndTailChain(s, u);
    } else if t + 2 <= u {
      AndTailEnds(s, u);
      GapChain(s, u);
    }
  }

  /** A group that starts with the whitespace character `\s+` gave back
      before `u`, where no `[\d\s,]` follows, is a chain from `u - 1`. */
  lemma GapChain(s: string, u: nat)
    requires 0 < u <= |s| && IsSpace(s[u - 1]) && (u == |s| || !IsClauseChar(s[u]))
    ensures Chain(s, u - 1, AndTail(s, u))
  {
    RunEndUnique(s, u - 1, u, IsClauseChar);
    AndTailChain(s, u - 1);
    RunEndUnique(s, u, u, IsClauseChar);
  }

  /** The separator `\s*,\s*|\s+and\s+|\s+` at position `i` of `t`, its
      alternatives tried in order; the result is the end of the separator. */
  function SeparatorAt(t: string, i: nat): (r: Option<nat>)
    requires i <= |t|
    ensures r.Some? ==> i < r.value <= |t|
  {
    var w := RunEnd(t, i, IsSpace);
    if w < |t| && t[w] == ',' then Some(RunEnd(t, w + 1, IsSpace))
    else if i < w && w + 4 <= |t| && t[w] == 'a' && t[w + 1] == 'n' && t[w + 2] == 'd' && IsSpace(t[w + 3])
    then Some(RunEnd(t, w + 3, IsSpace))
    else if i < w then Some(w)
    else None
  }

  /** `re.split` from position `i`, the current piece having started at `start`. */
  function Fragments(t: string, start: nat, i: nat): seq<string>
    requires start <= i <= |t|
    decreases |t| - i
  {
    if i == |t| then [t[start..]]
    else match SeparatorAt(t, i)
      case Some(j) => [t[start..i]] + Fragments(t, j, j)
      case None => Fragments(t, start, i + 1)
  }

  /** `re.split(r'\s*,\s*|\s+and\s+|\s+', t)`. */
  function Split(t: string): seq<string> {
    Fragments(t, 0, 0)
  }

  /** The pieces for which `isdigit()` holds, in order. */
  function DigitsOnly(xs: seq<string>): (r: seq<string>)
    ensures forall k :: 0 <= k < |r| ==> IsDigits(r[k])
    ensures |r| <= |xs|
  {
    if xs == [] then []
    else DigitsOnly(xs[..|xs| - 1]) + (if IsDigits(xs[|xs| - 1]) then [xs[|xs| - 1]] else [])
  }

  /** The ports the loop collects from the clauses `cs` of `s`. */
  function Collect(s: string, cs: seq<(nat, nat)>): (r: seq<string>)
    requires forall k :: 0 <= k < |cs| ==> cs[k].0 <= cs[k].1 <= |s|
    ensures forall k :: 0 <= k < |r| ==> IsDigits(r[k])
  {
    if cs == [] then []
    else
      var last := cs[|cs| - 1];
      Collect(s, cs[..|cs| - 1]) + DigitsOnly(Split(s[last.0..last.1]))
  }

  /** The value of `port_numbers` after the loop of lines 61-66. */
  function PortsOf(s: string): seq<string> {
    Collect(s, Clauses(s, 0))
  }

  lemma DigitsOnlyStep(xs: seq<string>, f: nat)
    requires f < |xs|
    ensures DigitsOnly(xs[..f + 1]) == DigitsOnly(xs[..f]) + (if IsDigits(xs[f]) then [xs[f]] else [])
  {
    assert xs[..f + 1][..f] == xs[..f];
  }

  lemma CollectStep(s: string, cs: seq<(nat, nat)>, m: nat)
    requires m < |cs|
    requires forall k :: 0 <= k < |cs| ==> cs[k].0 <= cs[k].1 <= |s|
    ensures Collect(s, cs[..m + 1]) == Collect(s, cs[..m]) + DigitsOnly(Split(s[cs[m].0..cs[m].1]))
  {
    assert cs[..m + 1][..m] == cs[..m];
  }

  /** Lines 65-66: append to `ports` the fragments that are all digits. */
  method KeepDigits(ports: seq<string>, fragments: seq<string>) returns (kept: seq<string>)
    ensures kept == ports + DigitsOnly(fragments)
  {
    kept := ports;
    for f := 0 to |fragments|
      invariant kept == ports + DigitsOnly(fragments[..f])
    {
      DigitsOnlyStep(fragments, f);
      if IsDigits(fragments[f]) {
        kept := kept + [fragments[f]];
      }
    }
    assert fragments[..|fragments|] == fragments;
  }

  /** Lines 59-66: for each clause, split its group and append the pieces
      that are all digits. */
  method ExtractPorts(text: string) returns (ports: seq<string>)
    ensures ports == PortsOf(text)
    ensures forall k :: 0 <= k < |ports| ==> IsDigits(ports[k])
  {
    ports := [];
    var clauses := Clauses(text, 0);
    for m := 0 to |clauses|
      invariant ports == Collect(text, clauses[..m])
    {
      var group := text[clauses[m].0..clauses[m].1];
      ports := KeepDigits(ports, Split(group));
      CollectStep(text, clauses, m);
    }
    assert clauses[..|clauses|] == clauses;
  }

  /** The pattern of line 60 as a function of the position. */
  function Matcher(s: string): nat -> Option<(nat, nat)> {
    (p: nat) => if p <= |s| then ClauseAt(s, p) else None
  }

  /** Where the search for the `k`-th match starts: at `i`, or where the
      previous match ended. */
  function From(i: nat, cs: seq<(nat, nat)>, k: nat): nat
    requires k <= |cs|
  {
    if k == 0 then i else cs[k - 1].1
  }

  /** `m` matches at `c`, and nowhere between `from` and `c`. */
  ghost predicate Leftmost(m: nat -> Option<(nat, nat)>, from: nat, c: nat) {
    from <= c && m(c).Some? && forall p :: from <= p < c ==> m(p).None?
  }

  /** `x` is the group of the leftmost match from `from`. */
  ghost predicate MatchFrom(m: nat -> Option<(nat, nat)>, from: nat, x: (nat, nat)) {
    exists c :: Leftmost(m, from, c) && m(c) == Some(x)
  }

  /** Each group in `cs` is that of the leftmost match from where the
      previous match ended (or from `i`). */
  ghost predicate EachLeftmost(m: nat -> Option<(nat, nat)>, i: nat, cs: seq<(nat, nat)>) {
    forall k: nat {:trigger From(i, cs, k)} :: k < |cs| ==>
      MatchFrom(m, From(i, cs, k), cs[k])
  }

  /** After the last match, the pattern matches nowhere before `n`. */
  ghost predicate QuietAfter(m: nat -> Option<(nat, nat)>, n: nat, i: nat, cs: seq<(nat, nat)>) {
    forall p :: From(i, cs, |cs|) <= p < n ==> m(p).None?
  }

  /** What `finditer` promises of the groups `cs` of a text of length `n`
      searched from `i`, stated without scanning: each match is the
      leftmost one from where the previous match ended, and after the last
      one the pattern matches nowhere. */
  ghost predicate IsFindIter(m: nat -> Option<(nat, nat)>, n: nat, i: nat, cs: seq<(nat, nat)>) {
    EachLeftmost(m, i, cs) && QuietAfter(m, n, i, cs)
  }

  lemma FindIterCons(m: nat -> Option<(nat, nat)>, n: nat, i: nat, cs: seq<(nat, nat)>)
    requires m(i).Some? && IsFindIter(m, n, m(i).value.1, cs)
    ensures IsFindIter(m, n, i, [m(i).value] + cs)
  {
    EachLeftmostCons(m, i, cs);
    var all := [m(i).value] + cs;
    assert From(i, all, |all|) == From(m(i).value.1, cs, |cs|);
  }

  lemma EachLeftmostCons(m: nat -> Option<(nat, nat)>, i: nat, cs: seq<(nat, nat)>)
    requires m(i).Some? && EachLeftmost(m, m(i).value.1, cs)
    ensures EachLeftmost(m, i, [m(i).value] + cs)
  {
    var e := m(i).value.1;
    var all := [m(i).value] + cs;
    assert From(i, all, 0) == i;
    assert Leftmost(m, From(i, all, 0), i) && m(i) == Some(all[0]);
    forall k: nat {:trigger From(i, all, k)} | 0 < k < |all|
      ensures MatchFrom(m, From(i, all, k), all[k])
    {
      assert all[k] == cs[k - 1] && From(i, all, k) == From(e, cs, k - 1);
    }
  }

  lemma FindIterSkip(m: nat -> Option<(nat, nat)>, n: nat, i: nat, cs: seq<(nat, nat)>)
    requires m(i).None? && IsFindIter(m, n, i + 1, cs)
    ensures IsFindIter(m, n, i, cs)
  {
    if |cs| > 0 {
      var c :| Leftmost(m, From(i + 1, cs, 0), c) && m(c) == Some(cs[0]);
      assert Leftmost(m, From(i, cs, 0), c);
    }
    forall k: nat {:trigger From(i, cs, k)} | 0 < k < |cs|
      ensures MatchFrom(m, From(i, cs, k), cs[k])
    {
      assert From(i, cs, k) == From(i + 1, cs, k);
    }
  }

  /** The scanner does what `finditer` promises. */
  lemma {:induction false} ClausesAreFindIter(s: string, i: nat)
    requires i <= |s|
    ensures IsFindIter(Matcher(s), |s|, i, Clauses(s, i))
    decreases |s| - i
  {
    if i < |s| {
      var r := ClauseAt(s, i);
      if r.Some? {
        ClausesAreFindIter(s, r.value.1);
        ClausesHit(s, i);
      } else {
        ClausesAreFindIter(s, i + 1);
        ClausesMiss(s, i);
      }
    }
  }

  lemma ClausesHit(s: string, i: nat)
    requires i < |s| && ClauseAt(s, i).Some?
    requires IsFindIter(Matcher(s), |s|, ClauseAt(s, i).value.1, Clauses(s, ClauseAt(s, i).value.1))
    ensures IsFindIter(Matcher(s), |s|, i, Clauses(s, i))
  {
    var m := Matcher(s);
    var r := ClauseAt(s, i);
    assert m(i) == r;
    assert Clauses(s, i) == [r.value] + Clauses(s, r.value.1);
    FindIterCons(m, |s|, i, Clauses(s, r.value.1));
  }

  lemma ClausesMiss(s: string, i: nat)
    requires i < |s| && ClauseAt(s, i).None?
    requires IsFindIter(Matcher(s), |s|, i + 1, Clauses(s, i + 1))
    ensures IsFindIter(Matcher(s), |s|, i, Clauses(s, i))
  {
    var m := Matcher(s);
    assert m(i) == ClauseAt(s, i);
    assert Clauses(s, i) == Clauses(s, i + 1);
    FindIterSkip(m, |s|, i, Clauses(s, i + 1));
  }

  lemma FindIterFirst(m: nat -> Option<(nat, nat)>, n: nat, i: nat, cs: seq<(nat, nat)>)
    requires i < n && m(i).Some? && IsFindIter(m, n, i, cs)
    ensures |cs| > 0 && cs[0] == m(i).value
    ensures IsFindIter(m, n, cs[0].1, cs[1..])
  {
    if |cs| > 0 {
      var c :| Leftmost(m, From(i, cs, 0), c) && m(c) == Some(cs[0]);
      assert c == i;
      var rest := cs[1..];
      forall k: nat {:trigger From(cs[0].1, rest, k)} | k < |rest|
        ensures MatchFrom(m, From(cs[0].1, rest, k), rest[k])
      {
        assert rest[k] == cs[k + 1] && From(cs[0].1, rest, k) == From(i, cs, k + 1);
      }
      assert From(cs[0].1, rest, |rest|) == From(i, cs, |cs|);
    }
  }

  lemma LeftmostLater(m: nat -> Option<(nat, nat)>, i: nat, c: nat)
    requires Leftmost(m, i, c) && m(i).None?
    ensures Leftmost(m, i + 1, c)
  {
  }

  lemma FindIterPast(m: nat -> Option<(nat, nat)>, n: nat, i: nat, cs: seq<(nat, nat)>)
    requires m(i).None? && IsFindIter(m, n, i, cs)
    ensures IsFindIter(m, n, i + 1, cs)
  {
    EachLeftmostPast(m, i, cs);
    assert From(i, cs, |cs|) <= From(i + 1, cs, |cs|);
  }

  lemma EachLeftmostPast(m: nat -> Option<(nat, nat)>, i: nat, cs: seq<(nat, nat)>)
    requires m(i).None? && EachLeftmost(m, i, cs)
    ensures EachLeftmost(m, i + 1, cs)
  {
    forall k: nat {:trigger From(i + 1, cs, k)} | k < |cs|
      ensures MatchFrom(m, From(i + 1, cs, k), cs[k])
    {
      if k == 0 {
        FirstLeftmostPast(m, i, cs);
      } else {
        assert From(i, cs, k) == From(i + 1, cs, k);
        var c :| Leftmost(m, From(i, cs, k), c) && m(c) == Some(cs[k]);
        assert Leftmost(m, From(i + 1, cs, k), c);
      }
    }
  }

  lemma FirstLeftmostPast(m: nat -> Option<(nat, nat)>, i: nat, cs: seq<(nat, nat)>)
    requires m(i).None? && EachLeftmost(m, i, cs) && |cs| > 0
    ensures MatchFrom(m, From(i + 1, cs, 0), cs[0])
  {
    assert From(i, cs, 0) == i && From(i + 1, cs, 0) == i + 1;
    var c :| Leftmost(m, From(i, cs, 0), c) && m(c) == Some(cs[0]);
    LeftmostLater(m, i, c);
    assert Leftmost(m, From(i + 1, cs, 0), c);
  }

  /** Only one sequence of groups does what `finditer` promises, so the
      promise determines the clauses. */
  lemma {:induction false} FindIterIsUnique(s: string, i: nat, cs: seq<(nat, nat)>)
    requires i <= |s|
    requires IsFindIter(Matcher(s), |s|, i, cs)
    ensures cs == Clauses(s, i)
    decreases |s| - i
  {
    var m := Matcher(s);
    if i < |s| {
      assert m(i) == ClauseAt(s, i);
      match ClauseAt(s, i)
      case Some((g, e)) =>
        FindIterFirst(m, |s|, i, cs);
        FindIterIsUnique(s, e, cs[1..]);
        assert cs == [(g, e)] + cs[1..];
      case None =>
        FindIterPast(m, |s|, i, cs);
        FindIterIsUnique(s, i + 1, cs);
    } else {
      NoMatchAtEnd(s);
      assert |cs| > 0 ==> From(i, cs, 0) == i;
    }
  }

  lemma NoMatchAtEnd(s: string)
    ensures forall c :: |s| <= c ==> Matcher(s)(c).None?
  {
  }

  /** Without a `port` cue anywhere there are no clauses, so no ports. */
  lemma {:induction false} NoCueNoClauses(s: string, i: nat)
    requires i <= |s|
    requires forall c :: i <= c < |s| ==> !CueAt(s, c)
    ensures Clauses(s, i) == []
    decreases |s| - i
  {
    if i < |s| {
      NoCueNoClauses(s, i + 1);
    }
  }

  /** Ports come only from clauses introduced by `port` or `ports`: a text
      with no such cue yields none. */
  lemma NoCueNoPorts(s: string)
    requires forall c :: 0 <= c < |s| ==> !CueAt(s, c)
    ensures PortsOf(s) == []
  {
    NoCueNoClauses(s, 0);
  }

  predicate IsBreak(c: char) { IsSpace(c) || c == ',' }

  /** Reference split: cut `t` at every whitespace character and at every
      comma, keeping the empty pieces. */
  function Pieces(t: string): seq<string> {
    SplitWhere(t, IsBreak)
  }

  lemma {:induction false} DigitsOnlyAppend(a: seq<string>, b: seq<string>)
    ensures DigitsOnly(a + b) == DigitsOnly(a) + DigitsOnly(b)
    decreases |b|
  {
    if b == [] {
      assert a + b == a;
    } else {
      DigitsOnlyAppend(a, b[..|b| - 1]);
      assert (a + b)[..|a + b| - 1] == a + b[..|b| - 1];
    }
  }

  lemma {:induction false} PiecesSkipBreaks(z: string, y: string)
    requires forall k :: 0 <= k < |z| ==> IsBreak(z[k])
    ensures DigitsOnly(Pieces(z + y)) == DigitsOnly(Pieces(y))
    decreases |z|
  {
    if z != [] {
      assert z + y == [] + [z[0]] + (z[1..] + y);
      SplitWhereAfter([], z[0], z[1..] + y, IsBreak);
      DigitsOnlyAppend([""], Pieces(z[1..] + y));
      PiecesSkipBreaks(z[1..], y);
    } else {
      assert z + y == y;
    }
  }

  lemma BreaksSkipped(t: string, i: nat, j: nat)
    requires i < j <= |t|
    requires forall k :: i < k < j ==> IsBreak(t[k])
    ensures DigitsOnly(Pieces(t[i + 1..])) == DigitsOnly(Pieces(t[j..]))
  {
    assert t[i + 1..] == t[i + 1..j] + t[j..];
    PiecesSkipBreaks(t[i + 1..j], t[j..]);
  }

  lemma AndPiece(a: string, c: char, y: string)
    requires |a| == 3 && a[0] == 'a' && a[1] == 'n' && a[2] == 'd' && IsBreak(c)
    ensures DigitsOnly(Pieces(a + [c] + y)) == DigitsOnly(Pieces(y))
  {
    SplitWhereAfter(a, c, y, IsBreak);
    DigitsOnlyAppend([a], Pieces(y));
    assert !IsDigits(a) by {
      assert a[0] == 'a';
    }
  }

  lemma AndSkipped(t: string, w: nat, j: nat)
    requires w + 4 <= j <= |t| && t[w] == 'a' && t[w + 1] == 'n' && t[w + 2] == 'd'
    requires forall k :: w + 3 <= k < j ==> IsBreak(t[k])
    ensures DigitsOnly(Pieces(t[w..])) == DigitsOnly(Pieces(t[j..]))
  {
    AndPiece(t[w..w + 3], t[w + 3], t[w + 4..]);
    assert t[w..] == t[w..w + 3] + [t[w + 3]] + t[w + 4..];
    BreaksSkipped(t, w + 3, j);
  }

  /** A separator contributes no digit piece to the reference split. */
  lemma SeparatorSkipped(t: string, i: nat, j: nat)
    requires i < |t| && SeparatorAt(t, i) == Some(j)
    ensures DigitsOnly(Pieces(t[i + 1..])) == DigitsOnly(Pieces(t[j..]))
  {
    var w := RunEnd(t, i, IsSpace);
    RunEndSpec(t, i, IsSpace);
    if w < |t| && t[w] == ',' {
      CommaSkipped(t, i, w);
    } else if i < w && w + 4 <= |t| && t[w] == 'a' && t[w + 1] == 'n' && t[w + 2] == 'd' && IsSpace(t[w + 3]) {
      AndSeparatorSkipped(t, i, w);
    } else {
      BreaksSkipped(t, i, w);
    }
  }

  /** `\s*,\s*` with the comma at `w`. */
  lemma CommaSkipped(t: string, i: nat, w: nat)
    requires i <= w < |t| && t[w] == ','
    requires forall k :: i <= k < w ==> IsSpace(t[k])
    ensures DigitsOnly(Pieces(t[i + 1..])) == DigitsOnly(Pieces(t[RunEnd(t, w + 1, IsSpace)..]))
  {
    RunEndSpec(t, w + 1, IsSpace);
    BreaksSkipped(t, i, RunEnd(t, w + 1, IsSpace));
  }

  /** `\s+and\s+` with the `and` at `w`. */
  lemma AndSeparatorSkipped(t: string, i: nat, w: nat)
    requires i < w && w + 4 <= |t| && t[w] == 'a' && t[w + 1] == 'n' && t[w + 2] == 'd' && IsSpace(t[w + 3])
    requires forall k :: i <= k < w ==> IsSpace(t[k])
    ensures DigitsOnly(Pieces(t[i + 1..])) == DigitsOnly(Pieces(t[RunEnd(t, w + 3, IsSpace)..]))
  {
    RunEndSpec(t, w + 3, IsSpace);
    BreaksSkipped(t, i, w);
    assert t[w - 1 + 1..] == t[w..];
    AndSkipped(t, w, RunEnd(t, w + 3, IsSpace));
  }

  lemma CutAtSeparator(t: string, start: nat, i: nat, j: nat)
    requires start <= i < |t| && SeparatorAt(t, i) == Some(j)
    requires forall k :: start <= k < i ==> !IsBreak(t[k])
    requires DigitsOnly(Fragments(t, j, j)) == DigitsOnly(Pieces(t[j..]))
    ensures DigitsOnly([t[start..i]] + Fragments(t, j, j)) == DigitsOnly(Pieces(t[start..]))
  {
    assert IsBreak(t[i]);
    PiecesCut(t, start, i);
    SeparatorSkipped(t, i, j);
    DigitsOnlyAppend([t[start..i]], Fragments(t, j, j));
    DigitsOnlyAppend([t[start..i]], Pieces(t[i + 1..]));
  }

  /** Cutting at the first break `i` after `start`. */
  lemma PiecesCut(t: string, start: nat, i: nat)
    requires start <= i < |t| && IsBreak(t[i])
    requires forall k :: start <= k < i ==> !IsBreak(t[k])
    ensures Pieces(t[start..]) == [t[start..i]] + Pieces(t[i + 1..])
  {
    assert t[start..] == t[start..i] + [t[i]] + t[i + 1..];
    SplitWhereAfter(t[start..i], t[i], t[i + 1..], IsBreak);
  }

  lemma NoSeparatorNoBreak(t: string, i: nat)
    requires i < |t| && SeparatorAt(t, i) == None
    ensures !IsBreak(t[i])
  {
    RunEndSpec(t, i, IsSpace);
  }

  lemma {:induction false} FragmentsAgree(t: string, start: nat, i: nat)
    requires start <= i <= |t|
    requires forall k :: start <= k < i ==> !IsBreak(t[k])
    ensures DigitsOnly(Fragments(t, start, i)) == DigitsOnly(Pieces(t[start..]))
    decreases |t| - i
  {
    if i == |t| {
      SplitWhereWhole(t[start..], IsBreak);
    } else {
      match SeparatorAt(t, i)
      case Some(j) =>
        FragmentsAgree(t, j, j);
        CutAtSeparator(t, start, i, j);
      case None =>
        NoSeparatorNoBreak(t, i);
        FragmentsAgree(t, start, i + 1);
    }
  }

  /** Splitting on the separator of line 64 and keeping the all-digit pieces
      gives the same ports as cutting at every whitespace character and
      comma: the ` and ` alternative and runs of separators only remove
      pieces that `isdigit()` rejects anyway. */
  lemma SplitKeepsDigitPieces(t: string)
    ensures DigitsOnly(Split(t)) == DigitsOnly(Pieces(t))
  {
    FragmentsAgree(t, 0, 0);
    assert t[0..] == t;
  }

  // Worked example.  The solver evaluates the scanners on a literal one
  // small step per lemma; the last lemma puts the steps together.

  const ScanRequest := "scan port 80, 443 and 8080 on 10.0.0.5"

  lemma ScanRequestSecondPort()
    ensures |ScanRequest| == 38 && ScanRequest[12] == ',' && ScanRequest[13] == ' '
    ensures ScanRequest[14] == '4' && ScanRequest[15] == '4' && ScanRequest[16] == '3'
    ensures ScanRequest[17] == ' ' && ScanRequest[18] == 'a'
  {
  }

  lemma ScanRequestFirstRunEnd()
    ensures RunEnd(ScanRequest, 14, IsClauseChar) == 18
  {
    ScanRequestSecondPort();
    assert RunEnd(ScanRequest, 18, IsClauseChar) == 18;
    assert RunEnd(ScanRequest, 17, IsClauseChar) == 18;
    assert RunEnd(ScanRequest, 16, IsClauseChar) == 18;
    assert RunEnd(ScanRequest, 15, IsClauseChar) == 18;
    assert RunEnd(ScanRequest, 14, IsClauseChar) == 18;
  }

  lemma ScanRequestFirstRunMiddle()
    ensures RunEnd(ScanRequest, 12, IsClauseChar) == 18
  {
    ScanRequestFirstRunEnd();
    ScanRequestSecondPort();
    assert RunEnd(ScanRequest, 13, IsClauseChar) == 18;
  }

  lemma ScanRequestFirstPort()
    ensures |ScanRequest| == 38 && ScanRequest[10] == '8' && ScanRequest[11] == '0'
  {
  }

  lemma ScanRequestFirstRun()
    ensures RunEnd(ScanRequest, 10, IsClauseChar) == 18
  {
    ScanRequestFirstRunMiddle();
    ScanRequestFirstPort();
    assert RunEnd(ScanRequest, 11, IsClauseChar) == 18;
  }

  lemma ScanRequestSecondRun()
    ensures RunEnd(ScanRequest, 21, IsClauseChar) == 27
  {
    assert RunEnd(ScanRequest, 27, IsClauseChar) == 27;
    assert RunEnd(ScanRequest, 26, IsClauseChar) == 27;
    assert RunEnd(ScanRequest, 25, IsClauseChar) == 27;
    assert RunEnd(ScanRequest, 24, IsClauseChar) == 27;
    assert RunEnd(ScanRequest, 23, IsClauseChar) == 27;
    assert RunEnd(ScanRequest, 22, IsClauseChar) == 27;
  }

  lemma ScanRequestAnds()
    ensures AndAt(ScanRequest, 18) && !AndAt(ScanRequest, 27)
  {
  }

  lemma ScanRequestTail()
    ensures AndTail(ScanRequest, 18) == 27
  {
    ScanRequestAnds();
    ScanRequestSecondRun();
    assert AndTail(ScanRequest, 27) == 27;
  }

  lemma ScanRequestCue()
    ensures CueAt(ScanRequest, 5) && !IsS(ScanRequest[9])
    ensures RunEnd(ScanRequest, 9, IsSpace) == 10 && IsClauseChar(ScanRequest[10])
  {
  }

  lemma ScanRequestClause()
    ensures ClauseAt(ScanRequest, 5) == Some((10, 27))
  {
    ScanRequestCue();
    ScanRequestFirstRun();
    ScanRequestTail();
  }

  lemma ScanRequestNoCue()
    ensures forall c :: 27 <= c < |ScanRequest| ==> !CueAt(ScanRequest, c)
    ensures forall c :: 0 <= c < 5 ==> !CueAt(ScanRequest, c)
  {
  }

  lemma ScanRequestClauses()
    ensures Clauses(ScanRequest, 0) == [(10, 27)]
  {
    ScanRequestNoCue();
    NoCueNoClauses(ScanRequest, 27);
    ScanRequestClause();
    assert Clauses(ScanRequest, 5) == [(10, 27)];
  }

  const ScanGroup := "80, 443 and 8080 "

  lemma ScanGroupSlice()
    ensures ScanRequest[10..27] == ScanGroup
  {
    assert forall k :: 0 <= k < 17 ==> ScanRequest[10 + k] == ScanGroup[k];
  }

  lemma ScanGroupLastSeparator()
    ensures SeparatorAt(ScanGroup, 16) == Some(17)
    ensures forall k :: 12 <= k < 16 ==> SeparatorAt(ScanGroup, k) == None
  {
  }

  lemma ScanGroupTail()
    ensures Fragments(ScanGroup, 12, 12) == ["8080", ""]
  {
    ScanGroupLastSeparator();
    assert |ScanGroup| == 17 && ScanGroup[17..] == "";
    assert Fragments(ScanGroup, 17, 17) == [""];
    assert Fragments(ScanGroup, 12, 16) == [ScanGroup[12..16], ""];
    assert Fragments(ScanGroup, 12, 14) == [ScanGroup[12..16], ""];
    assert ScanGroup[12..16] == "8080";
  }

  lemma ScanGroupAnd()
    ensures SeparatorAt(ScanGroup, 7) == Some(12)
  {
    assert RunEnd(ScanGroup, 7, IsSpace) == 8;
    assert RunEnd(ScanGroup, 11, IsSpace) == 12;
  }

  lemma ScanGroupMiddle()
    ensures Fragments(ScanGroup, 4, 4) == ["443"] + Fragments(ScanGroup, 12, 12)
  {
    ScanGroupAnd();
    assert forall k :: 4 <= k < 7 ==> SeparatorAt(ScanGroup, k) == None;
    assert ScanGroup[4..7] == "443";
  }

  lemma ScanGroupComma()
    ensures SeparatorAt(ScanGroup, 2) == Some(4)
  {
    assert RunEnd(ScanGroup, 2, IsSpace) == 2;
    assert RunEnd(ScanGroup, 4, IsSpace) == 4;
    assert RunEnd(ScanGroup, 3, IsSpace) == 4;
  }

  lemma ScanGroupFirstPort()
    ensures SeparatorAt(ScanGroup, 0) == None && SeparatorAt(ScanGroup, 1) == None
  {
    assert RunEnd(ScanGroup, 0, IsSpace) == 0;
    assert RunEnd(ScanGroup, 1, IsSpace) == 1;
  }

  lemma ScanGroupHead()
    ensures Split(ScanGroup) == ["80"] + Fragments(ScanGroup, 4, 4)
  {
    ScanGroupComma();
    ScanGroupFirstPort();
    assert Fragments(ScanGroup, 0, 2) == [ScanGroup[0..2]] + Fragments(ScanGroup, 4, 4);
    assert Fragments(ScanGroup, 0, 1) == Fragments(ScanGroup, 0, 2);
    assert ScanGroup[0..2] == "80";
  }

  lemma ScanGroupSplit()
    ensures Split(ScanGroup) == ["80", "443", "8080", ""]
  {
    ScanGroupHead();
    ScanGroupMiddle();
    ScanGroupTail();
    assert ["80"] + (["443"] + ["8080", ""]) == ["80", "443", "8080", ""];
  }

  lemma ScanGroupPorts()
    ensures DigitsOnly(["80", "443", "8080", ""]) == ["80", "443", "8080"]
  {
    var xs := ["80", "443", "8080", ""];
    assert xs[..3][..2][..1] == ["80"];
    assert DigitsOnly(xs[..3][..2]) == ["80", "443"];
    assert DigitsOnly(xs[..3]) == ["80", "443", "8080"];
  }

  /** Commas, ` and ` and whitespace all separate ports; the empty piece the
      trailing space leaves is dropped, and the address after `on` is not
      part of the clause. */
  lemma ScanRequestExample()
    ensures PortsOf(ScanRequest) == ["80", "443", "8080"]
  {
    ScanRequestClauses();
    ScanGroupSlice();
    ScanGroupSplit();
    ScanGroupPorts();
    assert [(10, 27)][..0] == [];
  }

  const SpacedCue := "port  x"

  /** Two spaces after the cue and no digit: `\s+` gives one space back,
      and the group is that one space. */
  lemma SpacedCueExample()
    ensures ClauseAt(SpacedCue, 0) == Some((5, 6))
  {
    assert CueAt(SpacedCue, 0) && CueEnd(SpacedCue, 0) == 4;
    ClauseStart(SpacedCue, 0, 6);
    ClauseAtSpec(SpacedCue, 0);
    assert !InClause(SpacedCue[6]);
  }

  const AndClause := "port 80 and 5"

  lemma AndClauseText()
    ensures |AndClause| == 13 && AndClause[5] == '8' && AndClause[6] == '0' && AndClause[7] == ' '
    ensures AndClause[8] == 'a' && AndClause[9] == 'n' && AndClause[10] == 'd'
    ensures AndClause[11] == ' ' && AndClause[12] == '5'
  {
  }

  lemma AndClauseRuns()
    ensures RunEnd(AndClause, 5, IsClauseChar) == 8 && RunEnd(AndClause, 11, IsClauseChar) == 13
  {
    AndClauseText();
    assert RunEnd(AndClause, 7, IsClauseChar) == 8;
    assert RunEnd(AndClause, 12, IsClauseChar) == 13;
  }

  /** The group does not stop before `and`: it runs on through the next
      run of digits, so `5` is part of it. */
  lemma AndClauseExample()
    ensures ClauseAt(AndClause, 0) == Some((5, 13))
  {
    AndClauseText();
    AndClauseRuns();
    assert CueAt(AndClause, 0) && CueEnd(AndClause, 0) == 4;
    assert RunEnd(AndClause, 4, IsSpace) == 5;
    assert AndAt(AndClause, 8) && AndTail(AndClause, 13) == 13;
  }
}
