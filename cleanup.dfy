/** remove_console_logs as a whole: the substitution of `LogRegex`, then a
    scan over the `\n`-separated lines with a cursor. A line whose stripped
    copy contains `console.log(` starts a statement. The cursor then takes
    following lines while the running count of `(` minus `)` stays positive,
    and the whole statement is dropped. Every other line is kept verbatim,
    and the kept lines are joined with `\n`. */
module ConsoleLogCleanup {
  import opened Text
  import opened LogRegex

  /** `l.count('(') - l.count(')')`. */
  function Delta(l: string): int {
    CountChar(l, '(') - CountChar(l, ')')
  }

  // ---------------------------------------------------------------------------
  // The elif pattern `\s*console\.log\(`.*\);\s*$`
  // ---------------------------------------------------------------------------

  const BacktickCall: string := Needle + "`"

  /** `re.match(r'\s*console\.log\(`.*\);\s*$', l)` succeeds. The leading
      `\s*` must take the whole leading whitespace run, since the literal
      starts with `c`. The `;` must be the last non-whitespace character,
      since only whitespace may follow it. `.*` is whatever lies between, and
      it must hold no line feed. */
  predicate IsBacktickCallLine(l: string) {
    var q := WsPrefixLen(l);
    var t := |l| - WsSuffixLen(l);
    q + |BacktickCall| + 2 <= t &&
    StartsWith(l[q..], BacktickCall) &&
    l[t - 2] == ')' && l[t - 1] == ';' &&
    Lacks(l[q + |BacktickCall|..t - 2], '\n')
  }

  /** `l` is in the language of the elif pattern, split as `l[..q]` for `\s*`,
      the literal `console.log(` plus a backtick at `q`, `l[q + 13..r]` for `.*`
      (no line feed), `l[r..r + 2]` for `\);`, and `l[r + 2..]` for `\s*` up to
      the end. */
  ghost predicate BacktickCallAt(l: string, q: int, r: int) {
    0 <= q && q + |BacktickCall| <= r && r + 2 <= |l| &&
    (forall k :: 0 <= k < q ==> IsWs(l[k])) &&
    OccursAt(l, BacktickCall, q) &&
    (forall k :: q + |BacktickCall| <= k < r ==> l[k] != '\n') &&
    l[r] == ')' && l[r + 1] == ';' &&
    (forall k :: r + 2 <= k < |l| ==> IsWs(l[k]))
  }

  /** The direct check accepts exactly the lines in the pattern's language. */
  lemma BacktickCallLineIff(l: string)
    ensures IsBacktickCallLine(l) <==> exists q, r :: BacktickCallAt(l, q, r)
  {
    if IsBacktickCallLine(l) {
      var q := WsPrefixLen(l);
      var t := |l| - WsSuffixLen(l);
      WsPrefixIsRun(l);
      WsSuffixIsRun(l);
      BacktickCallLineSound(l, q, t);
    }
    forall q, r | BacktickCallAt(l, q, r) ensures IsBacktickCallLine(l) {
      BacktickCallLineComplete(l, q, r);
    }
  }

  /** The pieces the direct check looks at, with `q` the start of the
      literal and `t` the end of the text before the trailing whitespace. */
  lemma BacktickCallLineSound(l: string, q: nat, t: nat)
    requires q + |BacktickCall| + 2 <= t <= |l|
    requires forall k :: 0 <= k < q ==> IsWs(l[k])
    requires StartsWith(l[q..], BacktickCall)
    requires l[t - 2] == ')' && l[t - 1] == ';'
    requires Lacks(l[q + |BacktickCall|..t - 2], '\n')
    requires forall k :: t <= k < |l| ==> IsWs(l[k])
    ensures BacktickCallAt(l, q, t - 2)
  {
    StartsWithAt(l, BacktickCall, q);
    LacksRange(l, q + |BacktickCall|, t - 2, '\n');
  }

  lemma BacktickCallLineComplete(l: string, q: int, r: int)
    requires BacktickCallAt(l, q, r)
    ensures IsBacktickCallLine(l)
  {
    assert l[q] == l[q..q + |BacktickCall|][0];
    WsPrefixLenExact(l, q);
    WsSuffixLenExact(l, r + 2);
    StartsWithAt(l, BacktickCall, q);
    LacksRange(l, q + |BacktickCall|, r, '\n');
  }

  /** Every line the elif pattern accepts already contains `console.log(`. */
  lemma BacktickLineHasNeedle(l: string)
    requires IsBacktickCallLine(l)
    ensures Contains(l, Needle)
  {
    var q := WsPrefixLen(l);
    StartsWithAt(l, BacktickCall, q);
    assert l[q..q + |Needle|] == l[q..q + |BacktickCall|][..|Needle|] == BacktickCall[..|Needle|];
    assert BacktickCall[..|Needle|] == Needle;
    ContainsAt(l, Needle, q);
  }

  // ---------------------------------------------------------------------------
  // The decisions of the line scan, as functions of the line sequence
  // ---------------------------------------------------------------------------

  /** The line a statement's `while` loop (lines 30-34) stops at. It starts at
      line `j` with running count `balance`, and takes the next line while the
      count is positive and there is a next line. */
  function SpanEnd(lines: seq<string>, j: nat, balance: int): (e: nat)
    requires j < |lines|
    ensures j <= e < |lines|
    decreases |lines| - j
  {
    if balance > 0 && j + 1 < |lines| then
      SpanEnd(lines, j + 1, balance + Delta(lines[j + 1]))
    else j
  }

  /** Where the cursor goes after handling line `i`. A statement start moves
      it past the statement (line 37). Every other line moves it by one
      (lines 43 and 49). */
  function Next(lines: seq<string>, i: nat): (n: nat)
    requires i < |lines|
    ensures i < n <= |lines|
  {
    var line := Strip(lines[i]);
    if Contains(line, Needle) then SpanEnd(lines, i, Delta(line)) + 1 else i + 1
  }

  /** Neither the branch at line 24 nor the one at line 41 takes the line. */
  predicate Keeps(l: string) {
    !Contains(Strip(l), Needle) && !IsBacktickCallLine(Strip(l))
  }

  /** The lines the scan appends to `cleaned_lines` from cursor `i` on. */
  function ScanFrom(lines: seq<string>, i: nat): seq<string>
    requires i <= |lines|
    decreases |lines| - i
  {
    if i == |lines| then []
    else if Keeps(lines[i]) then [lines[i]] + ScanFrom(lines, Next(lines, i))
    else ScanFrom(lines, Next(lines, i))
  }

  function Scan(lines: seq<string>): seq<string> {
    ScanFrom(lines, 0)
  }

  /** The indices of the lines the scan keeps from cursor `i` on: inside
      `[i, |lines|)` and strictly increasing. */
  function KeptFrom(lines: seq<string>, i: nat): (kept: seq<nat>)
    requires i <= |lines|
    ensures forall j :: 0 <= j < |kept| ==> i <= kept[j] < |lines|
    ensures forall j, j' :: 0 <= j < j' < |kept| ==> kept[j] < kept[j']
    decreases |lines| - i
  {
    if i == |lines| then []
    else if Keeps(lines[i]) then [i] + KeptFrom(lines, Next(lines, i))
    else KeptFrom(lines, Next(lines, i))
  }

  /** The cursor, started at `i`, stops at `s`. */
  ghost predicate Reached(lines: seq<string>, i: nat, s: nat)
    requires i <= |lines|
    decreases |lines| - i
  {
    i == s || (i < s && i < |lines| && Reached(lines, Next(lines, i), s))
  }

  // ---------------------------------------------------------------------------
  // The imperative scan (lines 16-51)
  // ---------------------------------------------------------------------------

  /** The inner `while` of lines 30-34: from a statement's first line
      `start`, whose count is `paren`, move to the line the statement ends on. */
  method FindStatementEnd(lines: seq<string>, start: nat, paren: int) returns (i: nat)
    requires start < |lines|
    ensures i == SpanEnd(lines, start, paren)
  {
    i := start;
    var parenCount := paren;
    while parenCount > 0 && i + 1 < |lines|
      invariant i < |lines|
      invariant SpanEnd(lines, i, parenCount) == SpanEnd(lines, start, paren)
      decreases |lines| - i
    {
      i := i + 1;
      parenCount := parenCount + Delta(lines[i]);
    }
  }

  /** The `while i < len(lines)` loop of lines 20-49. */
  method ScanLines(lines: seq<string>) returns (cleaned: seq<string>)
    ensures cleaned == Scan(lines)
  {
    cleaned := [];
    var i := 0;
    while i < |lines|
      invariant 0 <= i <= |lines|
      invariant cleaned + ScanFrom(lines, i) == Scan(lines)
      decreases |lines| - i
    {
      var line := Strip(lines[i]);
      if Contains(line, Needle) {
        var parenCount := Delta(line);
        var end := FindStatementEnd(lines, i, parenCount);
        ScanSkipsStatement(lines, i, end);
        i := end + 1;
        continue;
      } else if IsBacktickCallLine(line) {
        ScanSkipsBacktickLine(lines, i);
        i := i + 1;
        continue;
      } else {
        ScanKeepsLine(lines, i, cleaned);
        cleaned := cleaned + [lines[i]];
      }
      i := i + 1;
    }
  }

  lemma ScanSkipsStatement(lines: seq<string>, i: nat, end: nat)
    requires i < |lines| && Contains(Strip(lines[i]), Needle)
    requires end == SpanEnd(lines, i, Delta(Strip(lines[i])))
    ensures end < |lines| && ScanFrom(lines, i) == ScanFrom(lines, end + 1)
  {
  }

  lemma ScanSkipsBacktickLine(lines: seq<string>, i: nat)
    requires i < |lines| && !Contains(Strip(lines[i]), Needle) && IsBacktickCallLine(Strip(lines[i]))
    ensures ScanFrom(lines, i) == ScanFrom(lines, i + 1)
  {
  }

  lemma ScanKeepsLine(lines: seq<string>, i: nat, done: seq<string>)
    requires i < |lines| && !Contains(Strip(lines[i]), Needle) && !IsBacktickCallLine(Strip(lines[i]))
    ensures done + ScanFrom(lines, i) == (done + [lines[i]]) + ScanFrom(lines, i + 1)
  {
    assert ScanFrom(lines, i) == [lines[i]] + ScanFrom(lines, i + 1);
  }

  /** Both passes and the final join: what remove_console_logs returns. */
  function Cleaned(content: string): string {
    Join(Scan(Split(RegexPass(content))))
  }

  /** remove_console_logs (lines 6-51). */
  method RemoveConsoleLogs(content: string) returns (result: string)
    ensures result == Cleaned(content)
    ensures !Contains(result, Needle)
    ensures !Contains(content, Needle) ==> result == content
  {
    var substituted := RegexPass(content);
    var lines := Split(substituted);
    var cleanedLines := ScanLines(lines);
    result := Join(cleanedLines);
    CleanedHasNoNeedle(content);
    if !Contains(content, Needle) {
      CleanedIdentity(content);
    }
  }

  // ---------------------------------------------------------------------------
  // Stripping never changes a decision; the elif never fires
  // ---------------------------------------------------------------------------

  lemma NeedleShape()
    ensures Needle != [] && !IsWs(Needle[0]) && !IsWs(Needle[|Needle| - 1])
    ensures '\n' !in Needle
  {
  }

  /** The scan's decisions depend only on whether the line contains
      `console.log(`: stripping does not change that or the paren count,
      and the elif adds nothing to the first branch. */
  lemma KeepsIff(l: string)
    ensures Keeps(l) <==> !Contains(l, Needle)
    ensures Delta(Strip(l)) == Delta(l)
  {
    NeedleShape();
    StripKeepsContains(l, Needle);
    if IsBacktickCallLine(Strip(l)) {
      BacktickLineHasNeedle(Strip(l));
    }
    StripKeepsCount(l, '(');
    StripKeepsCount(l, ')');
  }

  // ---------------------------------------------------------------------------
  // What the scan keeps
  // ---------------------------------------------------------------------------

  /** No kept line contains `console.log(`. */
  lemma {:induction false} ScanHasNoNeedle(lines: seq<string>, i: nat)
    requires i <= |lines|
    ensures forall j :: 0 <= j < |ScanFrom(lines, i)| ==> !Contains(ScanFrom(lines, i)[j], Needle)
    decreases |lines| - i
  {
    if i < |lines| {
      KeepsIff(lines[i]);
      ScanHasNoNeedle(lines, Next(lines, i));
    }
  }

  /** When no line contains `console.log(`, the scan keeps every line. */
  lemma {:induction false} ScanIdentity(lines: seq<string>, i: nat)
    requires i <= |lines|
    requires forall k :: i <= k < |lines| ==> !Contains(lines[k], Needle)
    ensures ScanFrom(lines, i) == lines[i..]
    decreases |lines| - i
  {
    if i < |lines| {
      KeepsIff(lines[i]);
      ScanIdentity(lines, i + 1);
      assert lines[i..] == [lines[i]] + lines[i + 1..];
    }
  }

  /** The output is the kept lines, unmodified and in their original order,
      and there are never more of them than input lines. */
  lemma {:induction false} ScanIsKeptLines(lines: seq<string>, i: nat)
    requires i <= |lines|
    ensures |ScanFrom(lines, i)| == |KeptFrom(lines, i)| <= |lines| - i
    ensures forall j :: 0 <= j < |KeptFrom(lines, i)| ==>
              ScanFrom(lines, i)[j] == lines[KeptFrom(lines, i)[j]]
    decreases |lines| - i
  {
    if i < |lines| {
      var n := Next(lines, i);
      ScanIsKeptLines(lines, n);
      if Keeps(lines[i]) {
        assert ScanFrom(lines, i) == [lines[i]] + ScanFrom(lines, n);
        assert KeptFrom(lines, i) == [i] + KeptFrom(lines, n);
      }
    }
  }

  lemma {:induction false} ReachedIsAhead(lines: seq<string>, i: nat, s: nat)
    requires i <= |lines| && Reached(lines, i, s)
    ensures i <= s
    decreases |lines| - i
  {
    if i != s {
      ReachedIsAhead(lines, Next(lines, i), s);
    }
  }

  /** A line is kept exactly when the cursor stops on it and it is not a
      statement start (nor an elif line). */
  lemma {:induction false} KeptIff(lines: seq<string>, i: nat, k: nat)
    requires i <= |lines|
    ensures k in KeptFrom(lines, i) <==> k < |lines| && Reached(lines, i, k) && Keeps(lines[k])
    decreases |lines| - i
  {
    if i < |lines| {
      var n := Next(lines, i);
      KeptIff(lines, n, k);
      if Reached(lines, n, k) {
        ReachedIsAhead(lines, n, k);
      }
    }
  }

  /** Every line lies in the stretch `[s, Next(s))` of some cursor stop `s`.
      That stretch is one kept line, one elif line, or one whole statement. */
  lemma {:induction false} EveryLineCovered(lines: seq<string>, i: nat, k: nat)
    requires i <= k < |lines|
    ensures exists s :: i <= s <= k && Reached(lines, i, s) && k < Next(lines, s)
    decreases |lines| - i
  {
    var n := Next(lines, i);
    if k < n {
      assert Reached(lines, i, i);
    } else {
      EveryLineCovered(lines, n, k);
      var s :| n <= s <= k && Reached(lines, n, s) && k < Next(lines, s);
      assert Reached(lines, i, s);
    }
  }

  // ---------------------------------------------------------------------------
  // The extent of a statement
  // ---------------------------------------------------------------------------

  /** The running count of a statement that starts at line `s`, after line
      `j`: the start line's count (from its stripped copy, line 26) plus each
      continuation line's count (line 34). */
  function Balance(lines: seq<string>, s: nat, j: nat): int
    requires s <= j < |lines|
    decreases j - s
  {
    if j == s then Delta(Strip(lines[s])) else Balance(lines, s, j - 1) + Delta(lines[j])
  }

  lemma {:induction false} SpanEndExtent(lines: seq<string>, s: nat, j: nat)
    requires s <= j < |lines|
    requires forall m :: s <= m < j ==> Balance(lines, s, m) > 0
    ensures var e := SpanEnd(lines, j, Balance(lines, s, j));
            (forall m :: s <= m < e ==> Balance(lines, s, m) > 0) &&
            (Balance(lines, s, e) <= 0 || e == |lines| - 1)
    decreases |lines| - j
  {
    if Balance(lines, s, j) > 0 && j + 1 < |lines| {
      SpanEndExtent(lines, s, j + 1);
    }
  }

  /** A statement that starts at line `s` ends at the first line `e` where the
      running count drops to zero or below, or at the last line if it never
      does. Continuation lines are taken whatever they contain. */
  lemma SpanExtent(lines: seq<string>, s: nat)
    requires s < |lines| && Contains(Strip(lines[s]), Needle)
    ensures var e := Next(lines, s) - 1;
            s <= e < |lines| &&
            (forall m :: s <= m < e ==> Balance(lines, s, m) > 0) &&
            (Balance(lines, s, e) <= 0 || e == |lines| - 1)
  {
    SpanEndExtent(lines, s, s);
  }

  /** A statement whose parentheses never balance takes every line to the end
      of the text. */
  lemma UnbalancedDropsRest(lines: seq<string>, s: nat)
    requires s < |lines| && Contains(Strip(lines[s]), Needle)
    requires forall m :: s <= m < |lines| - 1 ==> Balance(lines, s, m) > 0
    ensures Next(lines, s) == |lines|
    ensures ScanFrom(lines, s) == []
  {
    SpanExtent(lines, s);
    KeepsIff(lines[s]);
  }

  // ---------------------------------------------------------------------------
  // The whole function
  // ---------------------------------------------------------------------------

  /** The result never contains `console.log(`. */
  lemma CleanedHasNoNeedle(content: string)
    ensures !Contains(Cleaned(content), Needle)
  {
    var kept := Scan(Split(RegexPass(content)));
    ScanHasNoNeedle(Split(RegexPass(content)), 0);
    NeedleShape();
    if Contains(Join(kept), Needle) {
      var k := JoinContains(kept, Needle);
    }
  }

  /** On text without `console.log(` the function returns its input. */
  lemma CleanedIdentity(content: string)
    requires !Contains(content, Needle)
    ensures Cleaned(content) == content
  {
    RegexPassIdentity(content);
    var lines := Split(content);
    JoinSplit(content);
    forall k | 0 <= k < |lines| ensures !Contains(lines[k], Needle) {
      if Contains(lines[k], Needle) {
        ContainsPieceOfJoin(lines, k, Needle);
      }
    }
    ScanIdentity(lines, 0);
  }

  /** Running the function on its own output changes nothing. */
  lemma CleanedIdempotent(content: string)
    ensures Cleaned(Cleaned(content)) == Cleaned(content)
  {
    CleanedHasNoNeedle(content);
    CleanedIdentity(Cleaned(content));
  }
}
