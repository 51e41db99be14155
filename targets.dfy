/** Target selection in `run` (nmap.py lines 50-57 and 67-71): the token
    walk that asks the host's IP recogniser and then its hostname recogniser
    about each token, stopping at the first truthy answer, and the choice of
    the scan target afterwards.  The recognisers are foreign code; they are
    parameters here, total functions from a token's text to an optional
    string. */
module Targets {
  import opened Wrappers

  /** Python truthiness of an optional string: `None` and `""` are false. */
  predicate Truthy(o: Option<string>) {
    o.Some? && o.value != ""
  }

  /** The two variables the walk assigns. */
  datatype Found = Found(ip: Option<string>, host: Option<string>)

  /** A token on which the walk stops. */
  predicate Recognised(t: string, ipOf: string -> Option<string>, hostOf: string -> Option<string>) {
    Truthy(ipOf(t)) || Truthy(hostOf(t))
  }

  /** The variables after walking `tokens`, starting from `ip` and `host`.
      The walrus `or` of line 56 assigns the hostname only when the IP
      answer is falsy, so after a stop on an IP the hostname keeps the value
      of an earlier token. */
  function Walk(tokens: seq<string>, ipOf: string -> Option<string>, hostOf: string -> Option<string>,
                ip: Option<string>, host: Option<string>): Found
    decreases |tokens|
  {
    if |tokens| == 0 then Found(ip, host)
    else
      var i := ipOf(tokens[0]);
      if Truthy(i) then Found(i, host)
      else
        var h := hostOf(tokens[0]);
        if Truthy(h) then Found(i, h) else Walk(tokens[1..], ipOf, hostOf, i, h)
  }

  /** Line 67: resolution failed. */
  predicate Failed(f: Found) {
    f.ip.None? && f.host.None?
  }

  /** Line 71: the IP answer when it is not `None`, else the hostname. */
  function Target(f: Found): (r: Option<string>)
    ensures r.None? <==> Failed(f)
    ensures f.ip.Some? ==> r == f.ip
    ensures f.ip.None? ==> r == f.host
  {
    if f.ip.Some? then f.ip else f.host
  }

  /** Lines 50-57: the loop with its `break`. */
  method SearchTokens(tokens: seq<string>, ipOf: string -> Option<string>, hostOf: string -> Option<string>)
    returns (ip: Option<string>, host: Option<string>)
    ensures Found(ip, host) == Walk(tokens, ipOf, hostOf, None, None)
  {
    ip := None;
    host := None;
    var k := 0;
    while k < |tokens|
      invariant k <= |tokens|
      invariant Walk(tokens[k..], ipOf, hostOf, ip, host) == Walk(tokens, ipOf, hostOf, None, None)
    {
      assert tokens[k..][0] == tokens[k] && tokens[k..][1..] == tokens[k + 1..];
      ip := ipOf(tokens[k]);
      if Truthy(ip) {
        break;
      }
      host := hostOf(tokens[k]);
      if Truthy(host) {
        break;
      }
      k := k + 1;
    }
  }

  /** When the walk stops at token `j`, the IP answer is that token's, and
      the hostname is that token's too unless the stop was on the IP, in
      which case it is the previous token's (or the initial value). */
  lemma {:induction false} WalkStopsAtFirstHit(tokens: seq<string>, ipOf: string -> Option<string>,
                                               hostOf: string -> Option<string>,
                                               ip: Option<string>, host: Option<string>, j: nat)
    requires j < |tokens| && Recognised(tokens[j], ipOf, hostOf)
    requires forall k :: 0 <= k < j ==> !Recognised(tokens[k], ipOf, hostOf)
    ensures Walk(tokens, ipOf, hostOf, ip, host) ==
      if Truthy(ipOf(tokens[j])) then Found(ipOf(tokens[j]), if j == 0 then host else hostOf(tokens[j - 1]))
      else Found(ipOf(tokens[j]), hostOf(tokens[j]))
    decreases j
  {
    if j > 0 {
      var rest := tokens[1..];
      assert rest[j - 1] == tokens[j];
      assert j - 1 > 0 ==> rest[j - 2] == tokens[j - 1];
      forall k | 0 <= k < j - 1
        ensures !Recognised(rest[k], ipOf, hostOf)
      {
        assert rest[k] == tokens[k + 1];
      }
      assert !Recognised(tokens[0], ipOf, hostOf);
      WalkStopsAtFirstHit(rest, ipOf, hostOf, ipOf(tokens[0]), hostOf(tokens[0]), j - 1);
    }
  }

  /** When no token is recognised, the walk ends holding the last token's
      two (falsy) answers. */
  lemma {:induction false} WalkWithoutHit(tokens: seq<string>, ipOf: string -> Option<string>,
                                          hostOf: string -> Option<string>,
                                          ip: Option<string>, host: Option<string>)
    requires |tokens| > 0
    requires forall k :: 0 <= k < |tokens| ==> !Recognised(tokens[k], ipOf, hostOf)
    ensures Walk(tokens, ipOf, hostOf, ip, host) == Found(ipOf(tokens[|tokens| - 1]), hostOf(tokens[|tokens| - 1]))
    decreases |tokens|
  {
    assert !Recognised(tokens[0], ipOf, hostOf);
    if |tokens| > 1 {
      var rest := tokens[1..];
      assert rest[|rest| - 1] == tokens[|tokens| - 1];
      forall k | 0 <= k < |rest|
        ensures !Recognised(rest[k], ipOf, hostOf)
      {
        assert rest[k] == tokens[k + 1];
      }
      WalkWithoutHit(rest, ipOf, hostOf, ipOf(tokens[0]), hostOf(tokens[0]));
    }
  }

  /** Recognisers that answer `None` rather than an empty string. */
  ghost predicate Clean(ipOf: string -> Option<string>, hostOf: string -> Option<string>) {
    forall t :: ipOf(t) != Some("") && hostOf(t) != Some("")
  }

  /** The target is the first recognised token's answer, and on that token
      IP recognition wins over hostname recognition. */
  lemma TargetIsFirstHit(tokens: seq<string>, ipOf: string -> Option<string>,
                         hostOf: string -> Option<string>, j: nat)
    requires Clean(ipOf, hostOf)
    requires j < |tokens| && Recognised(tokens[j], ipOf, hostOf)
    requires forall k :: 0 <= k < j ==> !Recognised(tokens[k], ipOf, hostOf)
    ensures var r := Target(Walk(tokens, ipOf, hostOf, None, None));
      && (Truthy(ipOf(tokens[j])) ==> r == ipOf(tokens[j]))
      && (!Truthy(ipOf(tokens[j])) ==> r == hostOf(tokens[j]))
      && Truthy(r)
  {
    WalkStopsAtFirstHit(tokens, ipOf, hostOf, None, None, j);
  }

  /** With clean recognisers, resolution fails exactly when no token is
      recognised. */
  lemma FailsIffNothingRecognised(tokens: seq<string>, ipOf: string -> Option<string>,
                                  hostOf: string -> Option<string>)
    requires Clean(ipOf, hostOf)
    ensures Failed(Walk(tokens, ipOf, hostOf, None, None))
      <==> forall k :: 0 <= k < |tokens| ==> !Recognised(tokens[k], ipOf, hostOf)
  {
    if exists j :: 0 <= j < |tokens| && Recognised(tokens[j], ipOf, hostOf) {
      var j := FirstHit(tokens, ipOf, hostOf);
      TargetIsFirstHit(tokens, ipOf, hostOf, j);
    } else if |tokens| > 0 {
      WalkWithoutHit(tokens, ipOf, hostOf, None, None);
    }
  }

  /** The index of the first recognised token, when there is one. */
  lemma {:induction false} FirstHit(tokens: seq<string>, ipOf: string -> Option<string>,
                                    hostOf: string -> Option<string>) returns (j: nat)
    requires exists j :: 0 <= j < |tokens| && Recognised(tokens[j], ipOf, hostOf)
    ensures j < |tokens| && Recognised(tokens[j], ipOf, hostOf)
    ensures forall k :: 0 <= k < j ==> !Recognised(tokens[k], ipOf, hostOf)
    decreases |tokens|
  {
    if Recognised(tokens[0], ipOf, hostOf) {
      j := 0;
    } else {
      var w :| 0 <= w < |tokens| && Recognised(tokens[w], ipOf, hostOf);
      assert tokens[1..][w - 1] == tokens[w];
      var i := FirstHit(tokens[1..], ipOf, hostOf);
      j := i + 1;
      forall k | 0 < k < j
        ensures !Recognised(tokens[k], ipOf, hostOf)
      {
        assert tokens[k] == tokens[1..][k - 1];
      }
    }
  }

  /** As written, an empty answer counts as "not recognised" for the walk
      but as "resolved" for the failure test: a sole token on which the IP
      recogniser answers `""` stops nothing, yet the run goes on with the
      empty string as its target. */
  lemma EmptyAnswerIsATarget(t: string, ipOf: string -> Option<string>, hostOf: string -> Option<string>)
    requires ipOf(t) == Some("") && !Truthy(hostOf(t))
    ensures !Recognised(t, ipOf, hostOf)
    ensures Target(Walk([t], ipOf, hostOf, None, None)) == Some("")
  {
    assert [t][1..] == [];
  }

  /** On the first recognised token an IP answer `""` still wins: the walk
      stops on the hostname answer, but line 71 tests `is not None`, so the
      empty IP answer is the target. */
  lemma EmptyIpBeatsHostname(tokens: seq<string>, ipOf: string -> Option<string>,
                             hostOf: string -> Option<string>, j: nat)
    requires j < |tokens| && Recognised(tokens[j], ipOf, hostOf)
    requires forall k :: 0 <= k < j ==> !Recognised(tokens[k], ipOf, hostOf)
    requires ipOf(tokens[j]) == Some("")
    ensures Truthy(hostOf(tokens[j]))
    ensures Target(Walk(tokens, ipOf, hostOf, None, None)) == Some("")
  {
    WalkStopsAtFirstHit(tokens, ipOf, hostOf, None, None, j);
  }

  /** When no token is recognised, only the last token's answers matter:
      an empty answer on an earlier token is overwritten, and the target is
      `""` exactly when the last token's IP answer is `""`, or it is `None`
      and the hostname answer is `""`. */
  lemma UnrecognisedTarget(tokens: seq<string>, ipOf: string -> Option<string>,
                           hostOf: string -> Option<string>)
    requires |tokens| > 0
    requires forall k :: 0 <= k < |tokens| ==> !Recognised(tokens[k], ipOf, hostOf)
    ensures var last := tokens[|tokens| - 1];
      Target(Walk(tokens, ipOf, hostOf, None, None)) ==
        if ipOf(last).Some? then ipOf(last) else hostOf(last)
    ensures var r := Target(Walk(tokens, ipOf, hostOf, None, None));
      r.None? || r == Some("")
  {
    WalkWithoutHit(tokens, ipOf, hostOf, None, None);
    assert !Recognised(tokens[|tokens| - 1], ipOf, hostOf);
  }
}
