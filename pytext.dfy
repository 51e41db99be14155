/** The parts of Python's `str` and `re` that the plugin relies on:
    the character classes `\s`, `\d`, `\w`, and `str.strip`, `str.lower`,
    `str.join` and `str.isdigit`.  Letters and digits are ASCII only;
    whitespace is Python's full set. */
module PyText {

  /** `str.isspace` on one character, which is also what `\s` matches. */
  predicate IsSpace(c: char) {
    var n := c as int;
    (9 <= n <= 13) || (28 <= n <= 32) || n == 0x85 || n == 0xA0 || n == 0x1680
    || (0x2000 <= n <= 0x200A) || n == 0x2028 || n == 0x2029 || n == 0x202F
    || n == 0x205F || n == 0x3000
  }

  predicate IsNonSpace(c: char) { !IsSpace(c) }

  predicate IsDigit(c: char) { '0' <= c <= '9' }

  predicate IsAlnum(c: char) { 'A' <= c <= 'Z' || 'a' <= c <= 'z' || IsDigit(c) }

  /** `\w`: letters, digits and the underscore. */
  predicate IsWord(c: char) { IsAlnum(c) || c == '_' }

  /** `s.isdigit()`: at least one character, and every character a digit. */
  predicate IsDigits(s: string) {
    |s| > 0 && forall k :: 0 <= k < |s| ==> IsDigit(s[k])
  }

  predicate AllSpace(s: string) {
    forall k :: 0 <= k < |s| ==> IsSpace(s[k])
  }

  /** No whitespace at either end (the shape of a stripped string). */
  predicate Trimmed(s: string) {
    s == [] || (!IsSpace(s[0]) && !IsSpace(s[|s| - 1]))
  }

  /** The end of the longest run of characters satisfying `p` that starts at `i`:
      what a greedy `[...]*` consumes. */
  function RunEnd(s: string, i: nat, p: char -> bool): (j: nat)
    requires i <= |s|
    ensures i <= j <= |s|
    decreases |s| - i
  {
    if i < |s| && p(s[i]) then RunEnd(s, i + 1, p) else i
  }

  /** The run is the longest one: every character in it satisfies `p` and
      the one after it (if any) does not. */
  lemma {:induction false} RunEndSpec(s: string, i: nat, p: char -> bool)
    requires i <= |s|
    ensures forall k :: i <= k < RunEnd(s, i, p) ==> p(s[k])
    ensures RunEnd(s, i, p) == |s| || !p(s[RunEnd(s, i, p)])
    decreases |s| - i
  {
    if i < |s| && p(s[i]) {
      RunEndSpec(s, i + 1, p);
    }
  }

  /** A run from `i` to `j` that `p` cannot extend is the longest one. */
  lemma {:induction false} RunEndUnique(s: string, i: nat, j: nat, p: char -> bool)
    requires i <= j <= |s|
    requires forall k :: i <= k < j ==> p(s[k])
    requires j == |s| || !p(s[j])
    ensures RunEnd(s, i, p) == j
    decreases j - i
  {
    if i < j {
      RunEndUnique(s, i + 1, j, p);
    }
  }

  /** `str.lstrip()`. */
  function StripLeft(s: string): string {
    if |s| > 0 && IsSpace(s[0]) then StripLeft(s[1..]) else s
  }

  /** `str.rstrip()`. */
  function StripRight(s: string): string {
    if |s| > 0 && IsSpace(s[|s| - 1]) then StripRight(s[..|s| - 1]) else s
  }

  /** `str.strip()`. */
  function Strip(s: string): string {
    StripRight(StripLeft(s))
  }

  /** `lstrip` removes a whitespace prefix and stops at the first other
      character. */
  lemma {:induction false} StripLeftSpec(s: string)
    ensures |StripLeft(s)| <= |s| && StripLeft(s) == s[|s| - |StripLeft(s)|..]
    ensures AllSpace(s[..|s| - |StripLeft(s)|])
    ensures StripLeft(s) == [] || !IsSpace(StripLeft(s)[0])
    decreases |s|
  {
    if |s| > 0 && IsSpace(s[0]) {
      var t := s[1..];
      var r := StripLeft(t);
      StripLeftSpec(t);
      assert StripLeft(s) == r;
      var n := |t| - |r|;
      assert r == t[n..] == s[n + 1..];
      var pre := s[..n + 1];
      forall k | 0 <= k < |pre|
        ensures IsSpace(pre[k])
      {
        if k > 0 {
          assert pre[k] == t[..n][k - 1];
        }
      }
    }
  }

  /** `rstrip` removes a whitespace suffix and stops at the last other
      character. */
  lemma {:induction false} StripRightSpec(s: string)
    ensures |StripRight(s)| <= |s| && StripRight(s) == s[..|StripRight(s)|]
    ensures AllSpace(s[|StripRight(s)|..])
    ensures StripRight(s) == [] || !IsSpace(StripRight(s)[|StripRight(s)| - 1])
    decreases |s|
  {
    if |s| > 0 && IsSpace(s[|s| - 1]) {
      var r := StripRight(s[..|s| - 1]);
      StripRightSpec(s[..|s| - 1]);
      assert s[..|s| - 1][..|r|] == s[..|r|];
      assert s[|r|..] == s[..|s| - 1][|r|..] + [s[|s| - 1]];
    }
  }

  /** The result of `strip` has no whitespace at either end. */
  lemma StripIsTrimmed(s: string)
    ensures Trimmed(Strip(s))
  {
    var l := StripLeft(s);
    StripLeftSpec(s);
    StripRightSpec(l);
    var r := StripRight(l);
    if r != [] {
      assert r[0] == l[0];
    }
  }

  /** How much leading whitespace `str.strip()` removes. */
  function Lead(s: string): nat {
    StripLeftSpec(s);
    |s| - |StripLeft(s)|
  }

  /** `Strip` removes exactly the surrounding whitespace: `Strip(s)` is the
      slice of `s` between a whitespace prefix and a whitespace suffix. */
  lemma {:induction false} StripSurround(s: string)
    ensures Lead(s) + |Strip(s)| <= |s|
    ensures s[Lead(s)..Lead(s) + |Strip(s)|] == Strip(s)
    ensures AllSpace(s[..Lead(s)]) && AllSpace(s[Lead(s) + |Strip(s)|..])
  {
    var l := StripLeft(s);
    var k := |s| - |l|;
    var r := StripRight(l);
    StripLeftSpec(s);
    StripRightSpec(l);
    assert Lead(s) == k && Strip(s) == r;
    assert l == s[k..];
    assert l[..|r|] == s[k..k + |r|];
    assert l[|r|..] == s[k + |r|..];
    assert AllSpace(s[..k]);
    assert AllSpace(l[|r|..]);
  }

  /** The surrounding whitespace is all `Strip` removes: a trimmed string
      wrapped in whitespace strips back to itself. */
  lemma {:induction false} StripUnwraps(pre: string, m: string, post: string)
    requires AllSpace(pre) && AllSpace(post) && Trimmed(m)
    ensures Strip(pre + m + post) == m
  {
    if m == [] {
      assert pre + m + post == (pre + post) + [];
      StripLeftUnwraps(pre + post, []);
      assert StripLeft(pre + m + post) == [];
    } else {
      assert pre + m + post == pre + (m + post);
      StripLeftUnwraps(pre, m + post);
      StripRightUnwraps(m, post);
    }
  }

  lemma {:induction false} StripLeftUnwraps(pre: string, rest: string)
    requires AllSpace(pre) && (rest == [] || !IsSpace(rest[0]))
    ensures StripLeft(pre + rest) == rest
    decreases |pre|
  {
    if pre == [] {
      assert pre + rest == rest;
    } else {
      assert (pre + rest)[1..] == pre[1..] + rest;
      StripLeftUnwraps(pre[1..], rest);
    }
  }

  lemma {:induction false} StripRightUnwraps(m: string, post: string)
    requires AllSpace(post) && (m == [] || !IsSpace(m[|m| - 1]))
    ensures StripRight(m + post) == m
    decreases |post|
  {
    if post == [] {
      assert m + post == m;
      if m != [] {
        assert !IsSpace(m[|m| - 1]);
      }
    } else {
      assert (m + post)[..|m + post| - 1] == m + post[..|post| - 1];
      StripRightUnwraps(m, post[..|post| - 1]);
    }
  }

  /** A string with no whitespace at either end strips to itself. */
  lemma StripTrimmed(s: string)
    requires Trimmed(s)
    ensures Strip(s) == s
  {
    if s != [] {
      assert StripLeft(s) == s;
      assert StripRight(s) == s;
    }
  }

  /** Stripping twice is stripping once. */
  lemma StripIdempotent(s: string)
    ensures Strip(Strip(s)) == Strip(s)
  {
    StripIsTrimmed(s);
    StripTrimmed(Strip(s));
  }

  /** `str.lower()` on one character (ASCII letters only). */
  function Lower(c: char): char {
    if 'A' <= c <= 'Z' then (c as int + 32) as char else c
  }

  function LowerStr(s: string): (r: string) {
    seq(|s|, k requires 0 <= k < |s| => Lower(s[k]))
  }

  /** Leading whitespace makes no difference to `lstrip`. */
  lemma {:induction false} StripLeftSkips(pre: string, x: string)
    requires AllSpace(pre)
    ensures StripLeft(pre + x) == StripLeft(x)
    decreases |pre|
  {
    if pre != [] {
      assert (pre + x)[1..] == pre[1..] + x;
      StripLeftSkips(pre[1..], x);
    } else {
      assert pre + x == x;
    }
  }

  /** Trailing whitespace makes no difference to `rstrip`. */
  lemma {:induction false} StripRightSkips(x: string, post: string)
    requires AllSpace(post)
    ensures StripRight(x + post) == StripRight(x)
    decreases |post|
  {
    if post != [] {
      assert (x + post)[..|x + post| - 1] == x + post[..|post| - 1];
      StripRightSkips(x, post[..|post| - 1]);
    } else {
      assert x + post == x;
    }
  }

  /** `lstrip` of a string that does not strip to nothing leaves what follows
      it alone. */
  lemma {:induction false} StripLeftAppend(x: string, post: string)
    requires StripLeft(x) != []
    ensures StripLeft(x + post) == StripLeft(x) + post
    decreases |x|
  {
    assert x != [];
    if IsSpace(x[0]) {
      assert (x + post)[1..] == x[1..] + post;
      StripLeftAppend(x[1..], post);
    }
  }

  /** Whitespace around a string makes no difference to its strip. */
  lemma StripIgnoresPadding(pre: string, s: string, post: string)
    requires AllSpace(pre) && AllSpace(post)
    ensures Strip(pre + s + post) == Strip(s)
  {
    assert pre + s + post == pre + (s + post);
    StripLeftSkips(pre, s + post);
    if StripLeft(s) != [] {
      StripLeftAppend(s, post);
      StripRightSkips(StripLeft(s), post);
    } else {
      assert AllSpace(s) by {
        StripLeftSpec(s);
        assert s[..|s|] == s;
      }
      StripLeftSkips(s, post);
      StripLeftSkips(post, []);
      assert post + [] == post;
    }
  }

  /** Lowering never turns a space into a non-space or back. */
  lemma LowerKeepsSpace(c: char)
    ensures IsSpace(Lower(c)) == IsSpace(c)
  {
  }

  lemma LowerSlice(s: string, i: nat, j: nat)
    requires i <= j <= |s|
    ensures LowerStr(s[i..j]) == LowerStr(s)[i..j]
  {
  }

  lemma LowerHead(s: string)
    requires |s| > 0
    ensures LowerStr(s)[1..] == LowerStr(s[1..])
    ensures IsSpace(LowerStr(s)[0]) == IsSpace(s[0])
  {
    LowerKeepsSpace(s[0]);
  }

  lemma {:induction false} LowerStripLeft(s: string)
    ensures LowerStr(StripLeft(s)) == StripLeft(LowerStr(s))
    decreases |s|
  {
    if |s| == 0 {
      assert LowerStr(s) == [];
    } else {
      LowerHead(s);
      if IsSpace(s[0]) {
        LowerStripLeft(s[1..]);
      }
    }
  }

  lemma {:induction false} LowerStripRight(s: string)
    ensures LowerStr(StripRight(s)) == StripRight(LowerStr(s))
    decreases |s|
  {
    var t := LowerStr(s);
    if |s| > 0 {
      LowerKeepsSpace(s[|s| - 1]);
      assert t[|t| - 1] == Lower(s[|s| - 1]);
      if IsSpace(s[|s| - 1]) {
        LowerStripRight(s[..|s| - 1]);
        LowerSlice(s, 0, |s| - 1);
        assert StripRight(t) == StripRight(t[..|t| - 1]);
      } else {
        assert StripRight(t) == t;
      }
    }
  }

  /** `s.strip().lower() == s.lower().strip()`. */
  lemma LowerStrip(s: string)
    ensures LowerStr(Strip(s)) == Strip(LowerStr(s))
  {
    LowerStripLeft(s);
    LowerStripRight(StripLeft(s));
  }

  /** `sep.join(xs)`. */
  function Join(xs: seq<string>, sep: string): string {
    if |xs| == 0 then ""
    else if |xs| == 1 then xs[0]
    else xs[0] + sep + Join(xs[1..], sep)
  }

  /** The pieces of `s` between the characters for which `cut` holds,
      empty pieces kept. */
  function SplitWhere(s: string, cut: char -> bool): (r: seq<string>)
    ensures |r| > 0
  {
    if s == [] then [""]
    else
      var rest := SplitWhere(s[1..], cut);
      if cut(s[0]) then [""] + rest else [[s[0]] + rest[0]] + rest[1..]
  }

  /** A text with no cut character is one piece. */
  lemma {:induction false} SplitWhereWhole(a: string, cut: char -> bool)
    requires forall k :: 0 <= k < |a| ==> !cut(a[k])
    ensures SplitWhere(a, cut) == [a]
    decreases |a|
  {
    if a != [] {
      SplitWhereWhole(a[1..], cut);
      assert [a[0]] + a[1..] == a;
    }
  }

  /** The first cut character ends the first piece. */
  lemma {:induction false} SplitWhereAfter(a: string, c: char, y: string, cut: char -> bool)
    requires forall k :: 0 <= k < |a| ==> !cut(a[k])
    requires cut(c)
    ensures SplitWhere(a + [c] + y, cut) == [a] + SplitWhere(y, cut)
    decreases |a|
  {
    if a == [] {
      assert a + [c] + y == [c] + y;
      assert ([c] + y)[1..] == y;
    } else {
      assert (a + [c] + y)[1..] == a[1..] + [c] + y;
      SplitWhereAfter(a[1..], c, y, cut);
      assert [a[0]] + a[1..] == a;
    }
  }

  /** The test for one character. */
  function Equals(c: char): char -> bool {
    x => x == c
  }

  /** `s.split(c)`: the pieces between the occurrences of `c`. */
  function SplitOn(s: string, c: char): seq<string> {
    SplitWhere(s, Equals(c))
  }

  /** Splitting a joined list on the separator gives the list back, as long
      as no element contains the separator. */
  lemma {:induction false} JoinSplitRoundTrip(xs: seq<string>, c: char)
    requires |xs| > 0
    requires forall k :: 0 <= k < |xs| ==> c !in xs[k]
    ensures SplitOn(Join(xs, [c]), c) == xs
    decreases |xs|
  {
    assert c !in xs[0];
    if |xs| == 1 {
      SplitWhereWhole(xs[0], Equals(c));
    } else {
      JoinSplitRoundTrip(xs[1..], c);
      SplitWhereAfter(xs[0], c, Join(xs[1..], [c]), Equals(c));
    }
  }
}
