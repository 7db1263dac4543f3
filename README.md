# remove_console_logs, modelled in Dafny

`backend/cleanup_console_logs.py` defines `remove_console_logs(content)`. It
strips `console.log(...)` calls from JavaScript/TypeScript source text in
two stages:

1. **Substitution (line 8).** One `re.sub` deletes every match of
   `\s*console\.log\([^)]*\);\s*\n`.
2. **Line scan (lines 16-51).** The substituted text is split on `\n`, and a
   cursor walks the lines:
   - A line whose stripped copy contains `console.log(` starts a statement.
     An inner loop then takes following lines while the running count of
     `(` minus `)` stays positive, and the whole statement is skipped.
   - A line matching `\s*console\.log\(`.*\);\s*$` is skipped.
   - Every other line is kept verbatim.
   - The kept lines are joined with `\n`.

The project has three modules:

- `Text` (`text.dfy`) models the parts of Python's `str` the function uses:
  - `in`, through `Contains`;
  - `count` of one character, through `CountChar`;
  - `strip`;
  - `split('\n')` and `'\n'.join`.
- `LogRegex` (`log_regex.dfy`) models the substitution.
  - `MatchAt` is a deterministic matcher for the pattern, proved to find
    the longest match in the pattern's language.
  - `RegexPass` is `re.sub`'s leftmost, non-overlapping scan.
- `ConsoleLogCleanup` (`cleanup.dfy`) models the line scan and the whole
  function.
  - `ScanLines` is the cursor loop, with its inner `while` as
    `FindStatementEnd`. Both are imperative methods proved against the
    recursive specification `ScanFrom`/`SpanEnd`.
  - `RemoveConsoleLogs` composes the two stages.
  - The properties of the function are lemmas about `Cleaned`, the
    function its result equals.

Whitespace is the six characters of `[ \t\n\r\f\v]`. This
approximates Python's `\s` and `str.strip()`. Both of those also treat
`\x1c`-`\x1f`, `\x85`, `\xa0` and the other Unicode spaces as whitespace.

The line-8 substitution is live code: its result is assigned back to
`content`, and line 16 splits that value. The model therefore composes both
passes: `Cleaned(content) == Join(Scan(Split(RegexPass(content))))`.

The elif at line 41 is modelled in both the specification (`Keeps`) and
the method (`ScanLines`). `BacktickLineHasNeedle` proves that it never
fires, because every line it accepts already contains `console.log(`.

## Model

| member | source | states |
|---|---|---|
| Text.Contains | backend/cleanup_console_logs.py:24 | Python's `p in s`: `p` occurs at some index of `s`; `ContainsAt` and `ContainsWitness` tie it to an occurrence in both directions |
| Text.CountChar | backend/cleanup_console_logs.py:26 | `s.count(c)` for one character; never more than `|s|` |
| Text.Strip | backend/cleanup_console_logs.py:21 | `str.strip()`: `s` without its leading and trailing whitespace runs; `StripShape` pins it down |
| Text.StripShape | backend/cleanup_console_logs.py:21 | `strip()` cuts an all-whitespace head and tail, and what remains starts and ends with non-whitespace |
| Text.StripKeepsContains | backend/cleanup_console_logs.py:21-24 | a pattern that begins and ends with non-whitespace is in `line.strip()` exactly when it is in `line` |
| Text.StripKeepsCount | backend/cleanup_console_logs.py:21-26 | stripping keeps the count of every non-whitespace character, so `paren_count` is the same for the stripped and unstripped line |
| Text.CountCharConcat | backend/cleanup_console_logs.py:26 | `count(c)` of a concatenation is the sum of the counts |
| Text.Split | backend/cleanup_console_logs.py:16 | `split('\n')` gives one more piece than there are line feeds, and no piece holds a line feed |
| Text.JoinSplit | backend/cleanup_console_logs.py:16 | `'\n'.join(s.split('\n')) == s` |
| Text.Join | backend/cleanup_console_logs.py:51 | `'\n'.join(pieces)`: the pieces with a line feed between neighbours; `JoinSplit` and `SplitJoin` make it the inverse of `Split` |
| Text.SplitJoin | backend/cleanup_console_logs.py:51 | splitting a join of line-feed-free pieces gives the pieces back |
| Text.SplitAtFirstNewline | backend/cleanup_console_logs.py:16 | text `a + "\n" + b` with no line feed in `a` splits into `a` followed by the pieces of `b` |
| Text.ContainsPieceOfJoin | backend/cleanup_console_logs.py:51 | a pattern in one piece is in the joined text |
| Text.JoinContains | backend/cleanup_console_logs.py:51 | a non-empty pattern without a line feed is in the joined text only if it is in some piece |
| Text.ContainsAcrossSeparator | backend/cleanup_console_logs.py:51 | a pattern that lacks the separator character cannot straddle it |
| Text.WsPrefixIsRun | backend/cleanup_console_logs.py:8 | the leading whitespace run is all whitespace and ends at a non-whitespace character or the end |
| Text.WsPrefixLenExact | backend/cleanup_console_logs.py:8 | any whitespace run that ends at a non-whitespace character or the end is the leading run |
| Text.WsSuffixLenExact | backend/cleanup_console_logs.py:41 | any whitespace tail that starts after a non-whitespace character or at the start is the trailing run |
| Text.StartsWithIff | backend/cleanup_console_logs.py:41 | the character-by-character prefix test is an occurrence at index 0 |
| Text.LacksIff | backend/cleanup_console_logs.py:41 | the character-by-character test is `c not in s` |
| LogRegex.IndexOfChar | backend/cleanup_console_logs.py:8 | finds the first `c`: the character there is `c`, and none before it is; `None` means no `c` at all |
| LogRegex.LastIndexOfChar | backend/cleanup_console_logs.py:8 | finds the last `c`: the character there is `c`, and none after it is; `None` means no `c` at all |
| LogRegex.MatchAt | backend/cleanup_console_logs.py:8 | the match `re.sub` finds at the start of `s`: the whole leading whitespace run, `console.log(`, then `MatchCallFrom`; at least the 15 characters of the shortest match |
| LogRegex.MatchCallFrom | backend/cleanup_console_logs.py:8 | `[^)]*` up to the first `)`, which must be followed by `;`, then `MatchTailFrom`; fails when there is no `)` or no `;` after it |
| LogRegex.MatchTailFrom | backend/cleanup_console_logs.py:8 | the trailing `\s*\n`: the whitespace run up to its last line feed, the choice greedy backtracking makes; fails when the run holds no line feed |
| LogRegex.MatchAtSound | backend/cleanup_console_logs.py:8 | every match `MatchAt` reports is a prefix in the language of `\s*console\.log\([^)]*\);\s*\n` |
| LogRegex.MatchAtComplete | backend/cleanup_console_logs.py:8 | every prefix in the pattern's language is found, and is no longer than the reported match |
| LogRegex.MatchAtIsLongestMatch | backend/cleanup_console_logs.py:8 | `MatchAt` is the longest prefix in the pattern's language, and `None` exactly when there is none |
| LogRegex.MatchHasNeedle | backend/cleanup_console_logs.py:8 | every match contains `console.log(` |
| LogRegex.RegexPassIdentity | backend/cleanup_console_logs.py:8 | on text without `console.log(` the substitution changes nothing |
| LogRegex.RegexPass | backend/cleanup_console_logs.py:8 | `re.sub(pattern, '', s)`: `re.sub`'s leftmost, non-overlapping scan using `MatchAt`, deleting each match and resuming after it, otherwise keeping one character; never longer than `s` |
| LogRegex.CallLine | backend/cleanup_console_logs.py:8 | a logging call on a line of its own together with the line feed before it, `"\nconsole.log(" + x + ");\n"` |
| LogRegex.NoMatchInside | backend/cleanup_console_logs.py:8 | no match starts inside text that has no `console.log(` and ends in non-whitespace before a line feed |
| LogRegex.RegexPassKeepsLeading | backend/cleanup_console_logs.py:8 | such text passes through the substitution unchanged |
| LogRegex.MatchOfCallLine | backend/cleanup_console_logs.py:8 | a call line followed by a line that starts with non-whitespace is one match, ending just before that line |
| LogRegex.CallLineVanishes | backend/cleanup_console_logs.py:8 | the substitution deletes such a call line, both of its line feeds included |
| LogRegex.RegexPassJoinsAroundCall | backend/cleanup_console_logs.py:8 | the leading `\s*` takes the line feed before a call line, so `a + CallLine(x) + b` becomes `a` directly followed by the substituted `b`: the lines around a removed call are glued together |
| LogRegex.RegexPassGluesLines | backend/cleanup_console_logs.py:8 | the worked instance of `RegexPassJoinsAroundCall`: `"a\nconsole.log(x);\nb"` becomes `"ab"` |
| ConsoleLogCleanup.Delta | backend/cleanup_console_logs.py:26 | `line.count('(') - line.count(')')`, the change a line makes to `paren_count` |
| ConsoleLogCleanup.IsBacktickCallLine | backend/cleanup_console_logs.py:41 | the elif's `re.match`, checked directly; `BacktickCallLineIff` proves it equal to the pattern's language |
| ConsoleLogCleanup.BacktickCallLineIff | backend/cleanup_console_logs.py:41 | the direct check accepts a line exactly when it is in the language of `\s*console\.log\(`.*\);\s*$` |
| ConsoleLogCleanup.BacktickLineHasNeedle | backend/cleanup_console_logs.py:24-44 | every line the elif pattern accepts contains `console.log(`, so the elif never fires |
| ConsoleLogCleanup.KeepsIff | backend/cleanup_console_logs.py:21-47 | a line is kept exactly when it does not contain `console.log(`, and stripping does not change its paren count |
| ConsoleLogCleanup.Keeps | backend/cleanup_console_logs.py:21-47 | a line reaches `cleaned_lines.append` when its stripped copy neither contains `console.log(` nor matches the elif pattern |
| ConsoleLogCleanup.SpanEnd | backend/cleanup_console_logs.py:30-34 | the line the inner loop stops on: it advances while the balance is positive and a next line exists, adding each next line's `Delta`; `SpanExtent` characterises it |
| ConsoleLogCleanup.Next | backend/cleanup_console_logs.py:24-49 | where the cursor goes from line `i`: past the whole statement when the stripped line contains `console.log(`, otherwise to `i + 1`; always strictly ahead and at most `|lines|` |
| ConsoleLogCleanup.Balance | backend/cleanup_console_logs.py:26-34 | the running `paren_count` of a statement from line `s` through line `j`: the stripped first line's `Delta` plus each continuation line's |
| ConsoleLogCleanup.FindStatementEnd | backend/cleanup_console_logs.py:30-34 | the inner loop stops at the line `SpanEnd` names |
| ConsoleLogCleanup.ScanFrom | backend/cleanup_console_logs.py:20-49 | the lines the cursor loop appends from cursor `i` on: a kept line followed by the scan from `Next`, or just the scan from `Next` |
| ConsoleLogCleanup.Scan | backend/cleanup_console_logs.py:17-49 | `cleaned_lines` after the loop: `ScanFrom` from cursor 0 |
| ConsoleLogCleanup.ScanLines | backend/cleanup_console_logs.py:17-49 | the cursor loop builds exactly `Scan(lines)`, the lines the recursive scan keeps |
| ConsoleLogCleanup.KeptFrom | backend/cleanup_console_logs.py:20-49 | the indices of kept lines lie in range and strictly increase |
| ConsoleLogCleanup.ScanIsKeptLines | backend/cleanup_console_logs.py:20-49 | the output is the kept lines, unmodified and in order, and never more lines than the input |
| ConsoleLogCleanup.KeptIff | backend/cleanup_console_logs.py:20-49 | a line is kept exactly when the cursor stops on it and the line does not contain `console.log(` |
| ConsoleLogCleanup.EveryLineCovered | backend/cleanup_console_logs.py:20-49 | every line lies between a cursor stop and the next one, so each line is kept, skipped as a statement start, or consumed as a continuation |
| ConsoleLogCleanup.ScanHasNoNeedle | backend/cleanup_console_logs.py:24-47 | no kept line contains `console.log(` |
| ConsoleLogCleanup.ScanIdentity | backend/cleanup_console_logs.py:24-47 | when no line contains `console.log(`, every line is kept |
| ConsoleLogCleanup.SpanExtent | backend/cleanup_console_logs.py:26-37 | a statement from line `s` ends at the first line where the running balance is `<= 0`, or at the last line; continuation lines are taken whatever they contain |
| ConsoleLogCleanup.UnbalancedDropsRest | backend/cleanup_console_logs.py:26-37 | a statement whose running balance stays positive on every line before the last drops every line to the end of the text, the last line included whatever its balance |
| ConsoleLogCleanup.Cleaned | backend/cleanup_console_logs.py:6-51 | the value `remove_console_logs` returns: the substitution, the split, the scan and the join, in that order |
| ConsoleLogCleanup.RemoveConsoleLogs | backend/cleanup_console_logs.py:6-51 | the result is `Cleaned(content)`, holds no `console.log(`, and equals the input when the input has none |
| ConsoleLogCleanup.CleanedHasNoNeedle | backend/cleanup_console_logs.py:8-51 | no `console.log(` survives anywhere in the result text |
| ConsoleLogCleanup.CleanedIdentity | backend/cleanup_console_logs.py:8-51 | on text without `console.log(` the function is the identity |
| ConsoleLogCleanup.CleanedIdempotent | backend/cleanup_console_logs.py:8-51 | applying the function to its own output changes nothing |

## Left out

- The `__main__` block (lines 53-64): it reads and rewrites a fixed file path and prints a message. This is file I/O and console output.
- The `sys` import (line 4), which is never used.
- The nested helper `remove_multiline_console_log` (lines 12-13), which is never called.
- The `full_statement` accumulator (lines 27 and 33), which is written but never read. Leaving it out does not change the result.
- Unicode whitespace: `\s` and `strip()` are modelled over the six characters of `[ \t\n\r\f\v]` only. The line scan does not depend on the whitespace set: the paren counts and the `console.log(` test need only that `(`, `)` and the ends of `console.log(` are not whitespace (`KeepsIff`). The line-8 substitution does depend on it. For `"\x1cconsole.log(x);\n"`, Python's `\s*` takes the `\x1c` and the result is `""`, while the model keeps the `\x1c` and returns `"\x1c"`.
- Python's `re` engine in general: only the two fixed patterns of lines 8 and 41 are modelled, each by a direct matcher proved equal to the pattern's language.
