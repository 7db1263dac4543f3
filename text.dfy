/** The parts of Python's `str` that remove_console_logs relies on:
    whitespace, substring search (`in`), `count`, `strip`, `split('\n')`
    and `'\n'.join`, each stated over `string` (= `seq<char>`). */
module Text {

  datatype Option<T> = None | Some(value: T)

  /** The six characters of the regex class `[ \t\n\r\f\v]`: space, tab,
      line feed, carriage return, vertical tab and form feed. */
  predicate IsWs(c: char) {
    c == ' ' || c == '\t' || c == '\n' || c == '\r' || c == '\U{0B}' || c == '\U{0C}'
  }

  predicate AllWs(s: string) {
    forall k :: 0 <= k < |s| ==> IsWs(s[k])
  }

  // ---------------------------------------------------------------------------
  // Substring search: `p in s`
  // ---------------------------------------------------------------------------

  /** `p` occurs in `s` starting at index `i`. */
  predicate OccursAt(s: string, p: string, i: int) {
    0 <= i && i + |p| <= |s| && s[i..i + |p|] == p
  }

  /** `s.startswith(p)`, one character at a time. */
  predicate StartsWith(s: string, p: string) {
    p == [] || (s != [] && s[0] == p[0] && StartsWith(s[1..], p[1..]))
  }

  lemma {:induction false} StartsWithIff(s: string, p: string)
    ensures StartsWith(s, p) <==> OccursAt(s, p, 0)
  {
    if p != [] && s != [] {
      StartsWithIff(s[1..], p[1..]);
      if OccursAt(s, p, 0) {
        assert s[1..][..|p| - 1] == s[..|p|][1..];
      }
      if StartsWith(s, p) {
        assert s[..|p|] == [s[0]] + s[1..][..|p| - 1];
        assert p == [p[0]] + p[1..];
      }
    }
  }

  /** `s[q:].startswith(p)` is an occurrence of `p` at `q`. */
  lemma StartsWithAt(s: string, p: string, q: nat)
    requires q <= |s|
    ensures StartsWith(s[q..], p) <==> OccursAt(s, p, q)
  {
    StartsWithIff(s[q..], p);
    if q + |p| <= |s| {
      assert s[q..][..|p|] == s[q..q + |p|];
    }
  }

  /** `c not in s`, one character at a time. */
  predicate Lacks(s: string, c: char) {
    s == [] || (s[0] != c && Lacks(s[1..], c))
  }

  /** `Lacks` on a slice, stated over the indices of the whole string. */
  lemma LacksRange(s: string, a: nat, b: nat, c: char)
    requires a <= b <= |s|
    ensures Lacks(s[a..b], c) <==> forall k :: a <= k < b ==> s[k] != c
  {
    LacksIff(s[a..b], c);
    forall k | a <= k < b ensures s[a..b][k - a] == s[k] {
    }
  }

  lemma {:induction false} LacksIff(s: string, c: char)
    ensures Lacks(s, c) <==> c !in s
  {
    if s != [] {
      LacksIff(s[1..], c);
      assert s == [s[0]] + s[1..];
    }
  }

  /** Python's `p in s`. */
  predicate Contains(s: string, p: string) {
    ContainsFrom(s, p, 0)
  }

  /** `p` occurs in `s` at index `i` or later. */
  predicate ContainsFrom(s: string, p: string, i: nat)
    decreases |s| - i
  {
    i <= |s| && (OccursAt(s, p, i) || ContainsFrom(s, p, i + 1))
  }

  lemma {:induction false} ContainsFromBefore(s: string, p: string, j: nat, i: nat)
    requires j <= i && OccursAt(s, p, i)
    ensures ContainsFrom(s, p, j)
    decreases i - j
  {
    if j < i {
      ContainsFromBefore(s, p, j + 1, i);
    }
  }

  /** An occurrence at any index makes `Contains` hold. */
  lemma ContainsAt(s: string, p: string, i: nat)
    requires OccursAt(s, p, i)
    ensures Contains(s, p)
  {
    ContainsFromBefore(s, p, 0, i);
  }

  lemma {:induction false} ContainsFromWitness(s: string, p: string, j: nat) returns (i: nat)
    requires ContainsFrom(s, p, j)
    ensures j <= i && OccursAt(s, p, i)
    decreases |s| - j
  {
    if OccursAt(s, p, j) {
      i := j;
    } else {
      i := ContainsFromWitness(s, p, j + 1);
    }
  }

  /** `Contains` holds only through an occurrence at some index. */
  lemma ContainsWitness(s: string, p: string) returns (i: nat)
    requires Contains(s, p)
    ensures OccursAt(s, p, i)
  {
    i := ContainsFromWitness(s, p, 0);
  }

  /** An occurrence inside a slice is an occurrence in the whole string. */
  lemma ContainsInSlice(s: string, p: string, a: nat, b: nat)
    requires a <= b <= |s|
    requires Contains(s[a..b], p)
    ensures Contains(s, p)
  {
    var i := ContainsWitness(s[a..b], p);
    forall k | 0 <= k < |p| ensures s[a + i..a + i + |p|][k] == p[k] {
      assert s[a..b][i..i + |p|][k] == p[k];
    }
    ContainsAt(s, p, a + i);
  }

  /** A pattern without the character `c` cannot straddle a `c`: an
      occurrence in `a + [c] + b` lies within `a` or within `b`. */
  lemma ContainsAcrossSeparator(a: string, c: char, b: string, p: string)
    requires c !in p
    requires Contains(a + [c] + b, p)
    ensures Contains(a, p) || Contains(b, p)
  {
    var s := a + [c] + b;
    var i := ContainsWitness(s, p);
    if i + |p| <= |a| {
      assert s[i..i + |p|] == a[i..i + |p|];
      ContainsAt(a, p, i);
    } else if i > |a| {
      var j := i - |a| - 1;
      forall k | 0 <= k < |p| ensures b[j..j + |p|][k] == p[k] {
        assert s[i..i + |p|][k] == p[k];
      }
      ContainsAt(b, p, j);
    } else {
      CharOfOccurrence(s, p, i, |a|);
      assert false;
    }
  }

  /** The suffix from `i` is `s[i]` followed by the suffix from `i + 1`. */
  lemma SuffixCons(s: string, i: nat, tail: string)
    requires i < |s|
    ensures s[i..] + tail == [s[i]] + (s[i + 1..] + tail)
  {
    assert s[i..] == [s[i]] + s[i + 1..];
  }

  /** An occurrence in a suffix `s[i..]` is an occurrence in `s`. */
  lemma OccursInSuffix(s: string, p: string, i: nat, q: nat)
    requires i <= |s| && OccursAt(s[i..], p, q)
    ensures OccursAt(s, p, i + q)
  {
    assert s[i..][q..q + |p|] == s[i + q..i + q + |p|];
  }

  /** An occurrence in `a + t` that ends within `a` is an occurrence in `a`. */
  lemma OccursInFront(a: string, t: string, p: string, j: nat)
    requires OccursAt(a + t, p, j) && j + |p| <= |a|
    ensures OccursAt(a, p, j)
  {
    assert (a + t)[j..j + |p|] == a[j..j + |p|];
  }

  lemma CharOfOccurrence(s: string, p: string, i: int, k: int)
    requires OccursAt(s, p, i) && i <= k < i + |p|
    ensures s[k] in p
  {
    assert s[k] == s[i..i + |p|][k - i];
  }

  // ---------------------------------------------------------------------------
  // `s.count(c)` for a one-character argument
  // ---------------------------------------------------------------------------

  function CountChar(s: string, c: char): (n: nat)
    ensures n <= |s|
  {
    if s == [] then 0 else (if s[0] == c then 1 else 0) + CountChar(s[1..], c)
  }

  lemma {:induction false} CountCharConcat(a: string, b: string, c: char)
    ensures CountChar(a + b, c) == CountChar(a, c) + CountChar(b, c)
  {
    if a == [] {
      assert a + b == b;
    } else {
      assert (a + b)[0] == a[0];
      assert (a + b)[1..] == a[1..] + b;
      CountCharConcat(a[1..], b, c);
    }
  }

  // ---------------------------------------------------------------------------
  // `s.strip()`
  // ---------------------------------------------------------------------------

  /** Length of the longest all-whitespace prefix of `s`. */
  function WsPrefixLen(s: string): (n: nat)
    ensures n <= |s|
  {
    if s != [] && IsWs(s[0]) then 1 + WsPrefixLen(s[1..]) else 0
  }

  /** `WsPrefixLen(s)` is the whole leading whitespace run: everything
      before it is whitespace, and the character at it is not. */
  lemma {:induction false} WsPrefixIsRun(s: string)
    ensures forall k :: 0 <= k < WsPrefixLen(s) ==> IsWs(s[k])
    ensures WsPrefixLen(s) == |s| || !IsWs(s[WsPrefixLen(s)])
  {
    if s != [] && IsWs(s[0]) {
      WsPrefixIsRun(s[1..]);
    }
  }

  /** A whitespace run ending at `m` before a non-whitespace character (or
      the end) is the one `WsPrefixLen` measures. */
  lemma {:induction false} WsPrefixLenExact(s: string, m: nat)
    requires m <= |s|
    requires forall k :: 0 <= k < m ==> IsWs(s[k])
    requires m == |s| || !IsWs(s[m])
    ensures WsPrefixLen(s) == m
  {
    if m > 0 {
      forall k | 0 <= k < m - 1 ensures IsWs(s[1..][k]) {
        assert s[1..][k] == s[k + 1];
      }
      if m < |s| {
        assert s[1..][m - 1] == s[m];
      }
      WsPrefixLenExact(s[1..], m - 1);
    }
  }

  /** A whitespace prefix of length `m` is no longer than the run. */
  /** The leading whitespace run stops at or before any non-whitespace
      character. */
  lemma WsPrefixLenAtMost(s: string, m: nat)
    requires m < |s| && !IsWs(s[m])
    ensures WsPrefixLen(s) <= m
  {
    WsPrefixIsRun(s);
  }

  lemma {:induction false} WsPrefixLenAtLeast(s: string, m: nat)
    requires m <= |s|
    requires forall k :: 0 <= k < m ==> IsWs(s[k])
    ensures m <= WsPrefixLen(s)
  {
    if m > 0 {
      forall k | 0 <= k < m - 1 ensures IsWs(s[1..][k]) {
        assert s[1..][k] == s[k + 1];
      }
      WsPrefixLenAtLeast(s[1..], m - 1);
    }
  }

  /** Length of the longest all-whitespace suffix of `s`. */
  function WsSuffixLen(s: string): (n: nat)
    ensures n <= |s|
  {
    if s != [] && IsWs(s[|s| - 1]) then 1 + WsSuffixLen(s[..|s| - 1]) else 0
  }

  /** `WsSuffixLen(s)` is the whole trailing whitespace run. */
  lemma {:induction false} WsSuffixIsRun(s: string)
    ensures forall k :: |s| - WsSuffixLen(s) <= k < |s| ==> IsWs(s[k])
    ensures WsSuffixLen(s) == |s| || !IsWs(s[|s| - 1 - WsSuffixLen(s)])
  {
    if s != [] && IsWs(s[|s| - 1]) {
      WsSuffixIsRun(s[..|s| - 1]);
    }
  }

  /** A whitespace run starting at `m` after a non-whitespace character (or
      the start) is the one `WsSuffixLen` measures. */
  lemma {:induction false} WsSuffixLenExact(s: string, m: nat)
    requires m <= |s|
    requires forall k :: m <= k < |s| ==> IsWs(s[k])
    requires m == 0 || !IsWs(s[m - 1])
    ensures WsSuffixLen(s) == |s| - m
  {
    if m < |s| {
      var init := s[..|s| - 1];
      forall k | m <= k < |init| ensures IsWs(init[k]) {
        assert init[k] == s[k];
      }
      if m > 0 {
        assert init[m - 1] == s[m - 1];
      }
      WsSuffixLenExact(init, m);
    }
  }

  /** Python's `s.strip()`: `s` without leading and trailing whitespace. */
  function Strip(s: string): string {
    var rest := s[WsPrefixLen(s)..];
    rest[..|rest| - WsSuffixLen(rest)]
  }

  /** `Strip(s)` is `s` with an all-whitespace head and tail cut off. */
  lemma StripShape(s: string) returns (a: nat, b: nat)
    ensures a <= b <= |s|
    ensures Strip(s) == s[a..b]
    ensures AllWs(s[..a]) && AllWs(s[b..])
    ensures a < b ==> !IsWs(s[a]) && !IsWs(s[b - 1])
  {
    a := WsPrefixLen(s);
    WsPrefixIsRun(s);
    var rest := s[a..];
    var n := WsSuffixLen(rest);
    WsSuffixIsRun(rest);
    b := a + |rest| - n;
    forall k | 0 <= k < a ensures IsWs(s[..a][k]) {
      assert s[..a][k] == s[k];
    }
    forall k | 0 <= k < |s| - b ensures IsWs(s[b..][k]) {
      assert s[b..][k] == rest[|rest| - n + k];
    }
    if a < b {
      assert s[b - 1] == rest[|rest| - 1 - n];
    }
  }

  /** Stripping never hides or reveals a pattern that begins and ends with a
      non-whitespace character. */
  lemma StripKeepsContains(s: string, p: string)
    requires p != [] && !IsWs(p[0]) && !IsWs(p[|p| - 1])
    ensures Contains(Strip(s), p) <==> Contains(s, p)
  {
    var a, b := StripShape(s);
    if Contains(Strip(s), p) {
      ContainsInSlice(s, p, a, b);
    }
    if Contains(s, p) {
      var i := ContainsWitness(s, p);
      assert s[i] == s[i..i + |p|][0] == p[0];
      assert s[i + |p| - 1] == s[i..i + |p|][|p| - 1] == p[|p| - 1];
      assert a <= i;
      assert i + |p| <= b;
      forall k | 0 <= k < |p| ensures s[a..b][i - a..i - a + |p|][k] == p[k] {
        assert s[i..i + |p|][k] == p[k];
      }
      ContainsAt(s[a..b], p, i - a);
    }
  }

  lemma {:induction false} CountCharAllWs(s: string, c: char)
    requires AllWs(s) && !IsWs(c)
    ensures CountChar(s, c) == 0
  {
    if s != [] {
      CountCharAllWs(s[1..], c);
    }
  }

  /** Stripping keeps every non-whitespace character, so it keeps their counts. */
  lemma StripKeepsCount(s: string, c: char)
    requires !IsWs(c)
    ensures CountChar(Strip(s), c) == CountChar(s, c)
  {
    var a, b := StripShape(s);
    var rest := s[a..];
    CountCharSplit(s, a, c);
    CountCharSplit(rest, b - a, c);
    assert rest[..b - a] == s[a..b];
    assert rest[b - a..] == s[b..];
    CountCharAllWs(s[..a], c);
    CountCharAllWs(s[b..], c);
  }

  lemma CountCharSplit(s: string, i: nat, c: char)
    requires i <= |s|
    ensures CountChar(s, c) == CountChar(s[..i], c) + CountChar(s[i..], c)
  {
    assert s == s[..i] + s[i..];
    CountCharConcat(s[..i], s[i..], c);
  }

  // ---------------------------------------------------------------------------
  // `s.split('\n')` and `'\n'.join(pieces)`
  // ---------------------------------------------------------------------------

  /** Python's `s.split('\n')`: one piece more than there are line feeds,
      `Split("") == [""]`, and no piece holds a line feed. */
  function Split(s: string): (pieces: seq<string>)
    ensures |pieces| == CountChar(s, '\n') + 1
    ensures forall k :: 0 <= k < |pieces| ==> '\n' !in pieces[k]
  {
    if s == [] then [[]]
    else
      var rest := Split(s[1..]);
      if s[0] == '\n' then [[]] + rest
      else [[s[0]] + rest[0]] + rest[1..]
  }

  /** Python's `'\n'.join(pieces)`. */
  function Join(pieces: seq<string>): string {
    if |pieces| == 0 then []
    else if |pieces| == 1 then pieces[0]
    else pieces[0] + "\n" + Join(pieces[1..])
  }

  /** Splitting on line feeds and joining with line feeds gives the text back. */
  lemma {:induction false} JoinSplit(s: string)
    ensures Join(Split(s)) == s
  {
    if s != [] {
      var rest := Split(s[1..]);
      JoinSplit(s[1..]);
      assert s == [s[0]] + s[1..];
      if s[0] == '\n' {
        var pieces := [[]] + rest;
        assert pieces[1..] == rest;
        assert Join(pieces) == [] + "\n" + Join(rest);
      } else {
        assert rest == [rest[0]] + rest[1..];
        JoinConsFirst(s[0], rest[0], rest[1..]);
      }
    }
  }

  /** Prepending a character to the first piece prepends it to the join. */
  lemma JoinConsFirst(c: char, first: string, more: seq<string>)
    ensures Join([[c] + first] + more) == [c] + Join([first] + more)
  {
    var pieces := [[c] + first] + more;
    var pieces' := [first] + more;
    assert pieces[1..] == more == pieces'[1..];
    if more != [] {
      var tail := Join(more);
      assert ([c] + first) + "\n" + tail == [c] + (first + "\n" + tail);
    }
  }

  lemma {:induction false} SplitOfLine(a: string)
    requires '\n' !in a
    ensures Split(a) == [a]
  {
    if a != [] {
      SplitOfLine(a[1..]);
      assert a == [a[0]] + a[1..];
    }
  }

  lemma {:induction false} SplitAtFirstNewline(a: string, b: string)
    requires '\n' !in a
    ensures Split(a + "\n" + b) == [a] + Split(b)
  {
    var s := a + "\n" + b;
    if a == [] {
      assert s[1..] == b;
    } else {
      assert s[0] == a[0] && s[1..] == a[1..] + "\n" + b;
      SplitAtFirstNewline(a[1..], b);
      var rest := Split(s[1..]);
      assert rest == [a[1..]] + Split(b);
      assert Split(s) == [[a[0]] + rest[0]] + rest[1..];
      assert rest[1..] == Split(b);
      assert [a[0]] + a[1..] == a;
    }
  }

  /** Joining pieces that hold no line feed and splitting again gives the
      pieces back. */
  lemma {:induction false} SplitJoin(pieces: seq<string>)
    requires |pieces| >= 1
    requires forall k :: 0 <= k < |pieces| ==> '\n' !in pieces[k]
    ensures Split(Join(pieces)) == pieces
  {
    if |pieces| == 1 {
      SplitOfLine(pieces[0]);
    } else {
      SplitJoin(pieces[1..]);
      SplitAtFirstNewline(pieces[0], Join(pieces[1..]));
    }
  }

  /** A pattern found in one piece is found in the joined text. */
  lemma {:induction false} ContainsPieceOfJoin(pieces: seq<string>, k: nat, p: string)
    requires k < |pieces|
    requires Contains(pieces[k], p)
    ensures Contains(Join(pieces), p)
  {
    if |pieces| > 1 {
      var j := Join(pieces);
      var tail := Join(pieces[1..]);
      if k == 0 {
        assert j[..|pieces[0]|] == pieces[0];
        ContainsInSlice(j, p, 0, |pieces[0]|);
      } else {
        ContainsPieceOfJoin(pieces[1..], k - 1, p);
        assert j[|pieces[0]| + 1..|j|] == tail;
        ContainsInSlice(j, p, |pieces[0]| + 1, |j|);
      }
    }
  }

  /** Joining with line feeds cannot create a pattern that has no line feed:
      the joined text holds `p` only if one piece does. */
  lemma {:induction false} JoinContains(pieces: seq<string>, p: string) returns (k: nat)
    requires p != [] && '\n' !in p
    requires Contains(Join(pieces), p)
    ensures k < |pieces| && Contains(pieces[k], p)
  {
    if |pieces| == 0 {
      var i := ContainsWitness(Join(pieces), p);
      assert false;
    } else if |pieces| == 1 {
      k := 0;
    } else {
      assert Join(pieces) == pieces[0] + ['\n'] + Join(pieces[1..]);
      ContainsAcrossSeparator(pieces[0], '\n', Join(pieces[1..]), p);
      if Contains(pieces[0], p) {
        k := 0;
      } else {
        var k' := JoinContains(pieces[1..], p);
        assert pieces[1..][k'] == pieces[k' + 1];
        k := k' + 1;
      }
    }
  }

}
