/** The first pass of remove_console_logs: the global substitution
    `re.sub(r'\s*console\.log\([^)]*\);\s*\n', '', content)`.

    The pattern needs no backtracking search.
    - The leading `\s*` must take the whole whitespace run, because the
      literal after it starts with the non-whitespace `c`.
    - `[^)]*` must stop at the first `)`.
    - Only the trailing `\s*\n` has a real choice. Greedy backtracking ends
      it at the last line feed of the whitespace run, which gives the longest
      match.
    `MatchAt` computes that match directly. `MatchAtIsLongestMatch` proves it
    is the longest prefix in the pattern's language, and that it is `None`
    exactly when no prefix is in the language. */
module LogRegex {
  import opened Text

  /** The text whose presence marks a line as a logging statement. */
  const Needle: string := "console.log("

  /** Index of the first `c` in `s`. */
  function IndexOfChar(s: string, c: char): (r: Option<nat>)
    ensures r.Some? ==> r.value < |s| && s[r.value] == c
    ensures r.Some? ==> forall k :: 0 <= k < r.value ==> s[k] != c
    ensures r.None? ==> forall k :: 0 <= k < |s| ==> s[k] != c
  {
    if s == [] then None
    else if s[0] == c then Some(0)
    else match IndexOfChar(s[1..], c)
      case None => None
      case Some(j) => Some(j + 1)
  }

  /** Index of the last `c` in `s`. */
  function LastIndexOfChar(s: string, c: char): (r: Option<nat>)
    ensures r.Some? ==> r.value < |s| && s[r.value] == c
    ensures r.Some? ==> forall k :: r.value < k < |s| ==> s[k] != c
    ensures r.None? ==> forall k :: 0 <= k < |s| ==> s[k] != c
  {
    if s == [] then None
    else if s[|s| - 1] == c then Some(|s| - 1)
    else LastIndexOfChar(s[..|s| - 1], c)
  }

  lemma LastIndexOfCharAtLeast(s: string, c: char, i: int)
    requires 0 <= i < |s| && s[i] == c
    ensures LastIndexOfChar(s, c).Some? && i <= LastIndexOfChar(s, c).value
  {
  }

  /** The prefix `s[..n]` is in the language of the pattern, split as
      `s[..q]` for `\s*`, `s[q..q + 12]` for `console\.log\(`, `s[q + 12..r]`
      for `[^)]*`, `s[r..r + 2]` for `\);`, `s[r + 2..n - 1]` for `\s*`,
      and `s[n - 1]` for `\n`. */
  ghost predicate PrefixMatches(s: string, n: int, q: int, r: int) {
    0 <= q && q + |Needle| <= r && r + 3 <= n <= |s| &&
    (forall k :: 0 <= k < q ==> IsWs(s[k])) &&
    OccursAt(s, Needle, q) &&
    (forall k :: q + |Needle| <= k < r ==> s[k] != ')') &&
    s[r] == ')' && s[r + 1] == ';' &&
    (forall k :: r + 2 <= k < n - 1 ==> IsWs(s[k])) &&
    s[n - 1] == '\n'
  }

  /** Length of the match that `re.sub` finds at the start of `s`, if any:
      the whole leading whitespace run, then the literal `console.log(`. */
  function MatchAt(s: string): (m: Option<nat>)
    ensures m.Some? ==> |Needle| + 3 <= m.value <= |s|
  {
    var q := WsPrefixLen(s);
    if OccursAt(s, Needle, q) then MatchCallFrom(s, q + |Needle|) else None
  }

  /** The rest of a match after the literal, which ends at `a`: up to the
      first `)`, which must be followed by `;`. */
  function MatchCallFrom(s: string, a: nat): (m: Option<nat>)
    requires a <= |s|
    ensures m.Some? ==> a + 3 <= m.value <= |s|
  {
    match IndexOfChar(s[a..], ')')
    case None => None
    case Some(j) =>
      if a + j + 1 < |s| && s[a + j + 1] == ';' then MatchTailFrom(s, a + j + 2) else None
  }

  /** The trailing `\s*\n`, starting at `b`: the whitespace run up to its
      last line feed. */
  function MatchTailFrom(s: string, b: nat): (m: Option<nat>)
    requires b <= |s|
    ensures m.Some? ==> b < m.value <= |s|
  {
    var t := b + WsPrefixLen(s[b..]);
    match LastIndexOfChar(s[b..t], '\n')
    case None => None
    case Some(k) => Some(b + k + 1)
  }

  lemma MatchAtSound(s: string) returns (n: nat, q: nat, r: nat)
    requires MatchAt(s).Some?
    ensures MatchAt(s) == Some(n) && PrefixMatches(s, n, q, r)
  {
    q := WsPrefixLen(s);
    WsPrefixIsRun(s);
    assert MatchAt(s) == MatchCallFrom(s, q + |Needle|);
    r := CallCloseOfMatch(s, q + |Needle|);
    n := TailOfMatch(s, r + 2);
  }

  /** Where `MatchCallFrom` succeeds, it found the first `)` after `a`, and
      a `;` follows it. */
  lemma CallCloseOfMatch(s: string, a: nat) returns (r: nat)
    requires a <= |s| && MatchCallFrom(s, a).Some?
    ensures a <= r && r + 2 <= |s|
    ensures forall k :: a <= k < r ==> s[k] != ')'
    ensures s[r] == ')' && s[r + 1] == ';'
    ensures MatchCallFrom(s, a) == MatchTailFrom(s, r + 2)
  {
    var j := IndexOfChar(s[a..], ')').value;
    r := a + j;
    forall k | a <= k < r ensures s[k] != ')' {
      assert s[a..][k - a] == s[k];
    }
    assert s[r] == s[a..][j];
  }

  /** Where `MatchTailFrom` succeeds, the match ends with a line feed after
      nothing but whitespace. */
  lemma TailOfMatch(s: string, b: nat) returns (n: nat)
    requires b <= |s| && MatchTailFrom(s, b).Some?
    ensures MatchTailFrom(s, b) == Some(n) && b < n <= |s|
    ensures forall k :: b <= k < n - 1 ==> IsWs(s[k])
    ensures s[n - 1] == '\n'
  {
    n := MatchTailFrom(s, b).value;
    var t := b + WsPrefixLen(s[b..]);
    WsPrefixIsRun(s[b..]);
    var k := LastIndexOfChar(s[b..t], '\n').value;
    forall i | b <= i < n - 1 ensures IsWs(s[i]) {
      assert s[b..][i - b] == s[i];
    }
    assert s[n - 1] == s[b..t][k];
  }

  lemma LeadingRunOfMatch(s: string, n: int, q: int, r: int)
    requires PrefixMatches(s, n, q, r)
    ensures WsPrefixLen(s) == q
  {
    assert s[q] == s[q..q + |Needle|][0];
    WsPrefixLenExact(s, q);
  }

  lemma FirstCloseOfMatch(s: string, n: int, q: int, r: int)
    requires PrefixMatches(s, n, q, r)
    ensures MatchCallFrom(s, q + |Needle|) == MatchTailFrom(s, r + 2)
  {
    var a := q + |Needle|;
    assert s[a..][r - a] == ')';
    var j := IndexOfChar(s[a..], ')').value;
    assert s[a..][j] == s[a + j];
    assert j == r - a;
  }

  lemma TrailingRunOfMatch(s: string, n: int, q: int, r: int)
    requires PrefixMatches(s, n, q, r)
    ensures MatchTailFrom(s, r + 2).Some? && n <= MatchTailFrom(s, r + 2).value
  {
    TailReaches(s, r + 2, n - 1);
  }

  /** A line feed at `i` after nothing but whitespace from `b` on is inside
      the match `MatchTailFrom` finds. */
  lemma TailReaches(s: string, b: nat, i: nat)
    requires b <= i < |s| && s[i] == '\n'
    requires forall k :: b <= k < i ==> IsWs(s[k])
    ensures MatchTailFrom(s, b).Some? && i < MatchTailFrom(s, b).value
  {
    var rest := s[b..];
    forall k | 0 <= k < i - b + 1 ensures IsWs(rest[k]) {
      assert rest[k] == s[b + k];
    }
    WsPrefixLenAtLeast(rest, i - b + 1);
    var seg := s[b..b + WsPrefixLen(rest)];
    assert seg[i - b] == s[i];
    LastIndexOfCharAtLeast(seg, '\n', i - b);
  }

  lemma MatchAtComplete(s: string, n: int, q: int, r: int)
    requires PrefixMatches(s, n, q, r)
    ensures MatchAt(s).Some? && n <= MatchAt(s).value
  {
    LeadingRunOfMatch(s, n, q, r);
    assert MatchAt(s) == MatchCallFrom(s, q + |Needle|);
    FirstCloseOfMatch(s, n, q, r);
    TrailingRunOfMatch(s, n, q, r);
  }

  /** `MatchAt(s)` is the longest prefix of `s` in the pattern's language,
      and it is `None` exactly when no prefix of `s` is in that language. */
  lemma MatchAtIsLongestMatch(s: string)
    ensures MatchAt(s).Some? ==> exists q, r :: PrefixMatches(s, MatchAt(s).value, q, r)
    ensures forall n, q, r :: PrefixMatches(s, n, q, r) ==>
              MatchAt(s).Some? && n <= MatchAt(s).value
  {
    if MatchAt(s).Some? {
      var n, q, r := MatchAtSound(s);
    }
    forall n, q, r | PrefixMatches(s, n, q, r)
      ensures MatchAt(s).Some? && n <= MatchAt(s).value
    {
      MatchAtComplete(s, n, q, r);
    }
  }

  /** `re.sub(pattern, '', s)`: scan left to right, delete each match found
      and resume after it, otherwise keep one character and move on. */
  function RegexPass(s: string): (r: string)
    ensures |r| <= |s|
    decreases |s|
  {
    if s == [] then []
    else match MatchAt(s)
      case Some(n) => RegexPass(s[n..])
      case None => [s[0]] + RegexPass(s[1..])
  }

  /** A match always contains the needle. */
  lemma MatchHasNeedle(s: string)
    requires MatchAt(s).Some?
    ensures Contains(s, Needle)
  {
    ContainsAt(s, Needle, WsPrefixLen(s));
  }

  /** On text without `console.log(` the substitution changes nothing. */
  lemma {:induction false} RegexPassIdentity(s: string)
    requires !Contains(s, Needle)
    ensures RegexPass(s) == s
  {
    if s != [] {
      if MatchAt(s).Some? {
        MatchHasNeedle(s);
      }
      if Contains(s[1..], Needle) {
        assert s[1..|s|] == s[1..];
        ContainsInSlice(s, Needle, 1, |s|);
      }
      RegexPassIdentity(s[1..]);
      assert s == [s[0]] + s[1..];
    }
  }

  /** No match starts inside text `a` that has no `console.log(` and ends in
      non-whitespace, when a line feed follows it: the leading `\s*` cannot
      reach past the last character of `a`, and the literal cannot contain
      the line feed. */
  lemma NoMatchInside(a: string, t: string, i: nat)
    requires i < |a| && !IsWs(a[|a| - 1]) && !Contains(a, Needle)
    requires t != [] && t[0] == '\n'
    ensures MatchAt((a + t)[i..]) == None
  {
    var s := a + t;
    var u := s[i..];
    assert u[|a| - 1 - i] == a[|a| - 1];
    WsPrefixLenAtMost(u, |a| - 1 - i);
    var q := WsPrefixLen(u);
    NoNeedleAt(a, t, i + q);
    if OccursAt(u, Needle, q) {
      OccursInSuffix(s, Needle, i, q);
      assert false;
    }
  }

  /** `console.log(` does not occur at an index `j` of `a + t` inside such
      text `a`: within `a` it is absent, and across the end of `a` it would
      have to contain the line feed. */
  lemma NoNeedleAt(a: string, t: string, j: nat)
    requires j < |a| && !Contains(a, Needle)
    requires t != [] && t[0] == '\n'
    ensures !OccursAt(a + t, Needle, j)
  {
    if OccursAt(a + t, Needle, j) {
      if j + |Needle| <= |a| {
        OccursInFront(a, t, Needle, j);
        ContainsAt(a, Needle, j);
      } else {
        CharOfOccurrence(a + t, Needle, j, |a|);
      }
      assert false;
    }
  }

  /** With no match at index `i`, the substitution keeps `a[i]`. */
  lemma KeepsOneChar(a: string, t: string, i: nat)
    requires i < |a| && !IsWs(a[|a| - 1]) && !Contains(a, Needle)
    requires t != [] && t[0] == '\n'
    ensures RegexPass((a + t)[i..]) == [a[i]] + RegexPass((a + t)[i + 1..])
  {
    var u := (a + t)[i..];
    NoMatchInside(a, t, i);
    assert u[1..] == (a + t)[i + 1..];
  }

  /** From index `i` of such text `a` on, the substitution copies the rest
      of `a` unchanged and goes on with `t`. */
  lemma {:induction false} RegexPassKeepsText(a: string, t: string, i: nat)
    requires a != [] && i <= |a| && !IsWs(a[|a| - 1]) && !Contains(a, Needle)
    requires t != [] && t[0] == '\n'
    ensures RegexPass((a + t)[i..]) == a[i..] + RegexPass(t)
    decreases |a| - i
  {
    var rest := RegexPass(t);
    if i == |a| {
      assert (a + t)[i..] == t;
      assert a[i..] + rest == rest;
    } else {
      KeepsOneChar(a, t, i);
      RegexPassKeepsText(a, t, i + 1);
      SuffixCons(a, i, rest);
    }
  }

  /** Before a line feed, such text `a` passes through the substitution
      unchanged. */
  lemma RegexPassKeepsLeading(a: string, t: string)
    requires !Contains(a, Needle) && (a == [] || !IsWs(a[|a| - 1]))
    requires t != [] && t[0] == '\n'
    ensures RegexPass(a + t) == a + RegexPass(t)
  {
    if a != [] {
      RegexPassKeepsText(a, t, 0);
      assert (a + t)[0..] == a + t;
    } else {
      assert a + t == t;
    }
  }

  /** A logging call on a line of its own, with the line feed before it:
      `"\nconsole.log(" + x + ");\n"`. */
  function CallLine(x: string): (l: string)
    ensures |l| == |Needle| + |x| + 4 && l[0] == '\n' && l[|l| - 1] == '\n'
  {
    "\n" + Needle + x + ");\n"
  }

  /** A call line is one match when the next line starts with
      non-whitespace: the line feed before the call, the call up to its
      first `)` and the `;`, and the line feed after it. */
  lemma MatchOfCallLine(x: string, b: string) returns (n: nat)
    requires ')' !in x && (b == [] || !IsWs(b[0]))
    ensures var t := CallLine(x) + b;
            MatchAt(t) == Some(n) && t[n..] == b
  {
    var l := CallLine(x);
    var t := l + b;
    var r := 1 + |Needle| + |x|;
    assert l == "\n" + Needle + x + ");\n";
    assert t[1..1 + |Needle|] == l[1..1 + |Needle|] == Needle;
    forall k | 1 + |Needle| <= k < r ensures t[k] != ')' {
      assert t[k] == l[k] == x[k - 1 - |Needle|];
    }
    assert t[r] == l[r] == ')' && t[r + 1] == l[r + 1] == ';' && t[r + 2] == '\n';
    n := r + 3;
    assert t[n..] == b;
    MatchOfCall(t, r);
  }

  /** The match at a line feed followed by `console.log(`, no `)` until `r`,
      then `);`, a line feed and non-whitespace. */
  lemma MatchOfCall(t: string, r: nat)
    requires r + 3 <= |t| && t[0] == '\n' && OccursAt(t, Needle, 1)
    requires forall k :: 1 + |Needle| <= k < r ==> t[k] != ')'
    requires t[r] == ')' && t[r + 1] == ';' && t[r + 2] == '\n'
    requires r + 3 == |t| || !IsWs(t[r + 3])
    ensures MatchAt(t) == Some(r + 3)
  {
    assert t[1] == t[1..1 + |Needle|][0];
    WsPrefixLenExact(t, 1);
    assert PrefixMatches(t, r + 3, 1, r);
    FirstCloseOfMatch(t, r + 3, 1, r);
    TailOfCallLine(t, r + 2);
  }

  /** The trailing `\s*\n` of a call line is its single line feed when the
      next line starts with non-whitespace. */
  lemma TailOfCallLine(t: string, c: nat)
    requires c < |t| && t[c] == '\n' && (c + 1 == |t| || !IsWs(t[c + 1]))
    ensures MatchTailFrom(t, c) == Some(c + 1)
  {
    var rest := t[c..];
    assert rest[0] == '\n' && (|rest| == 1 || rest[1] == t[c + 1]);
    WsPrefixLenExact(rest, 1);
    assert t[c..c + 1] == [rest[0]];
  }

  /** The substitution deletes such a call line and goes on with `b`. */
  lemma CallLineVanishes(x: string, b: string)
    requires ')' !in x && (b == [] || !IsWs(b[0]))
    ensures RegexPass(CallLine(x) + b) == RegexPass(b)
  {
    var n := MatchOfCallLine(x, b);
    var t := CallLine(x) + b;
    assert RegexPass(t) == RegexPass(t[n..]);
  }

  /** The leading `\s*` takes the line feed before a call line, so the line
      before a removed call is glued to the line after it: text `a` (no
      `console.log(`, ending in non-whitespace), a call line, and text `b`
      (starting with non-whitespace) become `a` directly followed by what the
      substitution makes of `b`. */
  lemma RegexPassJoinsAroundCall(a: string, x: string, b: string)
    requires !Contains(a, Needle) && (a == [] || !IsWs(a[|a| - 1]))
    requires ')' !in x && (b == [] || !IsWs(b[0]))
    ensures RegexPass(a + CallLine(x) + b) == a + RegexPass(b)
  {
    var t := CallLine(x) + b;
    assert a + CallLine(x) + b == a + t;
    CallLineVanishes(x, b);
    RegexPassKeepsLeading(a, t);
  }

  /** The worked instance: `"a\nconsole.log(x);\nb"` becomes `"ab"`. */
  lemma RegexPassGluesLines(s: string)
    requires s == "a\nconsole.log(x);\nb"
    ensures RegexPass(s) == "ab"
  {
    var a, x, b := "a", "x", "b";
    assert s == a + CallLine(x) + b;
    assert !OccursAt(a, Needle, 0) && !OccursAt(b, Needle, 0);
    RegexPassJoinsAroundCall(a, x, b);
    RegexPassIdentity(b);
  }
}
