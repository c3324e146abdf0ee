# minigrep, modelled in Dafny

`minigrep` is a small command-line search tool. It takes a file name and a
literal pattern, reads the file, and prints every line that contains the
pattern. Each printed line carries the one-based line number, the match's
start and end columns, and the line with the matched span coloured red. An
optional flag makes the comparison case-insensitive.

This project models the tool's logic in `src/main.rs` as pure Dafny functions over
`seq<char>`, and proves properties about them:

- `config.dfy` (module `Config`): the search configuration. It covers the
  manual positional parser `Config::myparse` and the post-parse fold in
  `Config::build`.
- `text.dfy` (module `Text`): ASCII case folding (`to_lowercase`) and
  first-occurrence substring search (`str::find`).
- `lines.dfy` (module `Lines`): splitting the content into lines the way
  Rust's `str::lines` does.
- `matcher.dfy` (module `Matcher`): `find_match`. This covers the comparison
  copy, the search, the span `[start, end)`, the highlighted rendering, and
  the loop over the lines.
- `report.dfy` (module `Report`): the line `main` prints for each match,
  `<filename>:<line+1>:<start+1>-<end+1>: <highlighted line>`.
- `scenarios.dfy` (module `Scenarios`): two concrete searches over a
  three-line file. Their results are derived from the general contracts.
- `results.dfy` (module `Results`): `Option` and `Result`.

The red colouring is modelled as an abstract marker: a rendering is a
sequence of `Plain(text)` and `Mark(text)` pieces, and `Erase` gives back its
text with the marks removed.

Three behaviours of the code are worth knowing, and the model keeps each:

- An empty pattern matches every line, empty lines included, at span 0..0,
  because `"".find("")` is `Some(0)` (`Matcher.EmptyPatternMatchesEveryLine`).
- Neither parser rejects an empty pattern.
- A fourth positional token that is not a spelling of `--insensitive` or `-i`
  is silently ignored, so the search stays case-sensitive
  (`Config.UnrecognisedFlagIgnored`).

`str::lines` is modelled as current Rust defines it. A line ends at `'\n'`. A
`'\r'` directly before that `'\n'` is dropped. A final line needs no
terminator. A trailing `'\n'` does not add an empty line. A lone `'\r'` at the
very end of the content is kept.

## Model

| member | source | states |
|---|---|---|
| `Config.MyParse` | src/main.rs:32-58 | Fails exactly when there are fewer than 3 entries. For 1 or 2 entries the error reports one less than the entry count; for none it reports 0 (see "Left out"). Otherwise `filename` is `args[1]`. `insensitive` holds exactly when there is a 4th token that spells `--insensitive` or `-i` in any mix of cases. The pattern is unchanged when sensitive. It is folded (so it has no upper-case letter) and has the same fold as `args[2]` when insensitive. |
| `Config.InsensitiveFlagSpellings` | src/main.rs:41-46 | Comparing the lowercased token with `"--insensitive"` or `"-i"` accepts exactly the case spellings of those two flags and nothing else. |
| `Config.UnrecognisedFlagIgnored` | src/main.rs:41-51 | Any 4th token that is not a flag spelling gives a case-sensitive configuration with the pattern verbatim. |
| `Config.Build` | src/main.rs:60-66 | Keeps the filename and the flag. Leaves the pattern untouched when the flag is off. Otherwise folds it, so the result never holds an upper-case pattern letter under the flag, and its fold equals the input's. |
| `Config.BuildIdempotent` | src/main.rs:62-64 | Building twice equals building once: the pattern is never folded a second time. |
| `Config.BuildFixesNormalized` | src/main.rs:62-64 | A configuration whose pattern is already folded (or which is case-sensitive) is left unchanged by the fold. |
| `Config.MyParseAgreesWithBuild` | src/main.rs:32-66 | When there are at least 3 entries, the positional parser equals the flag-parser path (`build`) applied to `args[1]`, `args[2]` and the recognised flag. So given the same filename, pattern and flag value, both input modes yield the same configuration. The two parsers still differ in which tokens they accept: `myparse` recognises any casing of the flag, where the flag parser accepts only the exact spellings. |
| `Config.UsageCountAsWritten` | src/main.rs:33-37 | The count as written (`args.len() - 1` on `usize`) exists exactly for a non-empty argument vector and is then one less than its length. |
| `Config.UsageCountUnderflowsOnEmptyArgs` | src/main.rs:36 | For an empty argument vector the as-written count has no value: the subtraction overflows. |
| `Config.UsageCount` | src/main.rs:33-37 | The corrected count agrees with the as-written one whenever that exists. It is 0 for an empty argument vector and never exceeds the length. |
| `Text.Lower` | src/main.rs:84 | Folding keeps the length and maps every character independently, so offsets found in the folded copy index the original line. |
| `Text.LowerIsLowered` | src/main.rs:47-48 | A folded string has no upper-case letter, and folding it again changes nothing. |
| `Text.LowerSlice` | src/main.rs:88-94 | Folding commutes with slicing. The folded copy's span `[start, end)` is the fold of the original's span. |
| `Text.LowerEqualsIffSpells` | src/main.rs:42-43 | A string folds to a lower-case literal exactly when it spells that literal in some mix of cases. |
| `Text.FindFrom` | src/main.rs:88 | A forward search from position `i` returns an occurrence at or after `i` with no occurrence between `i` and it. It returns nothing only when no occurrence starts at or after `i`. |
| `Text.Find` | src/main.rs:88 | `find` succeeds exactly when the pattern occurs. It returns an occurrence, and no earlier position is an occurrence. |
| `Text.FindEmpty` | src/main.rs:88 | The empty pattern is found at position 0 of every string. |
| `Text.FindTooLong` | src/main.rs:88 | A pattern longer than the line is never found. |
| `Lines.Split` | src/main.rs:82 | No produced line contains `'\n'`. The content is empty exactly when there are no lines. |
| `Lines.SplitUnsplit` | src/main.rs:82 | Lines without `'\n'` and without a trailing `'\r'`, each terminated by `'\n'` and joined, split back into the same lines. |
| `Lines.UnsplitSplit` | src/main.rs:82 | For content with no `"\r\n"` line ending, rejoining its lines with `'\n'` gives the content back. A `'\r'` anywhere else, even at the very end, stays in its line. A final `'\n'` is added only when the content lacked one. |
| `Lines.SplitUnsplitCrlf` | src/main.rs:82 | Lines without `'\n'`, each terminated by `"\r\n"` and joined, split back into the same lines. Each `"\r\n"` is a line ending, and a line that itself ends in `'\r'` keeps it, since only one `'\r'` before the `'\n'` is dropped. |
| `Lines.SplitOneLine` | src/main.rs:82 | Non-empty text without `'\n'` is a single line, returned verbatim. A final bare `'\r'` is kept. |
| `Lines.SplitUnsplitWith` | src/main.rs:82 | Lines joined with a mix of `"\r\n"` and `'\n'` endings, one chosen per line, split back into the same lines. A line ended by a bare `'\n'` must not itself end in `'\r'`. |
| `Lines.FinalCrlfOptional` | src/main.rs:82 | The last line ending is optional for `"\r\n"` text: content not ending in `'\n'` has the same lines with or without a final `"\r\n"`, so an unterminated Windows-style file is read line by line like a terminated one. |
| `Lines.FinalLfOptional` | src/main.rs:82 | The last line ending is optional for `'\n'` text: content ending in neither `'\n'` nor `'\r'` has the same lines with or without a final `'\n'`. |
| `Matcher.Compared` | src/main.rs:83-87 | The comparison copy has the same length as the original line. |
| `Matcher.Splice` | src/main.rs:90-95 | The rendering is plain text, one marked piece, then plain text. The text before the mark is exactly `start` long. The marked text is the original span `[start, end)`. Erasing the mark gives back the original line. |
| `Matcher.SpliceUnique` | src/main.rs:90-95 | Any rendering that is plain, marked `content[start..end]`, plain, with `start` characters before the mark and erasing to the line, is exactly the one the format builds. |
| `Matcher.MatchLine` | src/main.rs:83-103 | A line yields a record exactly when its comparison copy contains the pattern. The record names the line and keeps the original line text and the effective pattern. Its `end` is `start` plus the pattern's length and lies within the line. Its span is an occurrence in the comparison copy, no earlier position is one, and its highlight reconstructs the line. |
| `Matcher.FaithfulIsMatchLine` | src/main.rs:83-103 | A record that keeps every promise about a line is the record the matcher builds for it. The promises fix each field, so they are a complete description of the loop body. |
| `Matcher.Matches` | src/main.rs:82-105 | The records of all lines: each describes the line it names, they are strictly ascending by line, and a line has a record exactly when its comparison copy contains the pattern. |
| `Matcher.MatchesGuarantees` | src/main.rs:79-108 | Over the first `n` lines: every record describes the line it names. Records come in strictly ascending line order, so there is at most one per line, and they name only those lines. A line has a record exactly when its comparison copy contains the pattern. |
| `Matcher.InsensitiveMatchesAnyCasing` | src/main.rs:83-101 | With a folded pattern under the flag, a line matches exactly when some stretch of the original line spells the pattern in any casing. The record keeps the original casing, and its span folds to the pattern. |
| `Matcher.SensitiveMatchesExactly` | src/main.rs:83-89 | Without the flag, a line matches exactly when the pattern occurs verbatim, and the original span equals the pattern. An occurrence in another casing is not reported. |
| `Matcher.EmptySpans` | src/main.rs:82-95 | The records expected for the empty pattern over the first `n` lines: exactly `n` of them, record `i` for line `i` with its original text, at span 0..0. |
| `Matcher.EmptyPatternMatchesEveryLine` | src/main.rs:82-89 | The empty pattern yields exactly the expected records: one per line, empty lines included, record `i` for line `i` at span 0..0. |
| `Matcher.NoOccurrenceNoMatches` | src/main.rs:82-107 | Lines none of whose comparison copies contains the pattern yield no records. |
| `Matcher.MatchOne` | src/main.rs:83-103 | The imperative loop body gives a record exactly when the line's comparison copy contains the pattern. The record names the line, keeps its text and the effective pattern, has `end` equal to `start` plus the pattern's length, and spans the first occurrence in the comparison copy. Its highlight marks that span and erases back to the line. |
| `Matcher.MatchAll` | src/main.rs:82-105 | The loop over the lines returns records that each describe the line they name. They are strictly ascending by line, and a line has a record exactly when its comparison copy contains the pattern. The result equals the matches of all lines. |
| `Matcher.FindMatch` | src/main.rs:79-108 | The loop over the content's lines returns the matches of those lines. They are faithful, strictly ascending by line, and complete. |
| `Report.Decimal` | src/main.rs:117-119 | A number prints as a non-empty string of decimal digits without a leading zero. |
| `Report.DecimalRoundTrip` | src/main.rs:117-119 | Reading a printed number back gives the number. |
| `Report.ReportLine` | src/main.rs:114-121 | The printed line is one plain (uncoloured) header that starts with the filename, followed by the match's highlighted rendering, unchanged. |
| `Report.ParseLocatorRoundTrip` | src/main.rs:115-119 | The text `:<line>:<start>-<end>: <rest>` reads back as those three numbers and the rest. |
| `Report.ReportText` | src/main.rs:114-121 | The printed text is the filename, then the locator with the one-based numbers, then the line's text with marks removed. |
| `Report.ReportRoundTrip` | src/main.rs:114-121 | A printed line starts with the filename. What follows reads back as `line+1`, `start+1`, `end+1` and the line's text with marks erased. |
| `Report.ReportOfMatch` | src/main.rs:114-121 | For a faithful record of line `n`, the printed line reports `n+1`, `start+1` and `start` plus the pattern's length plus 1, then the original line text. |
| `Scenarios.SensitiveScenario` | src/main.rs:79-108 | Searching `["Hello world", "goodbye", "HELLO again"]` for `Hello` case-sensitively yields one record, for line 0, span 0..5, content `Hello world`. |
| `Scenarios.InsensitiveScenario` | src/main.rs:79-108 | Searching the same lines for `hello` under the flag yields records for lines 0 and 2, each with span 0..5, keeping their original casing. |

## Left out

- Config.MyParse: for an empty argument vector the error reports 0 (the corrected `Config.UsageCount`), where `args.len() - 1` at src/main.rs:36 underflows. The as-written count is modelled separately as `Config.UsageCountAsWritten`; see "Findings".
- Reading the file (`fs::read_to_string`) and the panic when it fails: file I/O. The content is an input string to `Matcher.FindMatch`.
- `Config::parse()`: flag parsing happens inside the `clap` library, which is not part of this model. `Config.Build` takes the values it produces as a parameter. Its usage errors for missing arguments are not modelled.
- The ANSI escape bytes that `.red()` emits: modelled as the abstract `Mark` piece.
- `println!` and the terminal: only the printed line's content is modelled (`Report.ReportLine`).
- `Text.Lower`: folds only the ASCII letters `A`–`Z` and keeps every other character. Rust's `to_lowercase` applies full Unicode lowercasing, which can change a string's length. The model does not cover that case; there the source slices the original line at offsets taken from a copy of a different length.
- Offsets in match records are character positions, where the source reports byte offsets. The two agree for ASCII text, which is the domain of the folding above.
- `str::lines` is a lazy iterator. It is modelled as the finished sequence of lines, which the loop consumes in order.
- Machine-width integers for line numbers and offsets are unbounded here. A file large enough to overflow `usize` is out of scope.

## Findings

| source | as written | input that shows it | evidently intended | confidence | as-written member | corrected member |
|---|---|---|---|---|---|---|
| src/main.rs:33-37 | The usage error reports `args.len() - 1` computed on `usize`. `myparse` has no caller: `main` uses `Config::build` (src/main.rs:111), and line 1 allows dead code, so the overflow cannot happen in this program as it stands. | An empty argument vector (`args.len() == 0`, possible when a process is started with no `argv[0]`). The length check sends it to the error branch, where the subtraction overflows: a panic in a debug build, `18446744073709551615` in a release build. | Report 0 arguments. | low; not executed | `Config.UsageCountAsWritten` (shown by `Config.UsageCountUnderflowsOnEmptyArgs`) | `Config.UsageCount` (used by `Config.MyParse`) |
