# searcher: the per-file search engine and the argument parser

The modelled program is a small grep-like tool written in Rust. It is run as `searcher [OPTIONS] PATTERN [PATH ...]`. This project models its two parts with real logic, both in `code/src/main.rs`, and proves properties about them.

**`search_in_file`.** It takes the lines of one file and works in three stages:
- *Scanner:* collects the indices of the lines the pattern matches, in increasing order.
- *Merger:* gives every match a window of `before` lines above and `after` lines below, clamped to the file. Touching or overlapping windows are united into ranges.
- *Renderer:* prints the ranges.
  - Heading mode prints the file name, `--` between blocks, and `N<sep>content` per line.
  - No-heading mode prints `file<sep>N<sep>content` per line and nothing else.
  - `sep` is `:` on a match line and `-` on a context line.
  - A match line is coloured with ANSI escapes when colour is on (`highlight_regex`).

**The argument loop of `main`.** It reads the arguments after the program name:
- the switches `-c/--color`, `-i/--ignore-case`, `-h/--hidden` and `--no-heading`;
- the numeric options `-A/--after-context`, `-B/--before-context` and `-C/--context`;
- `--help`.

The first other argument is the pattern and the rest are paths, `.` by default. After the loop, `-i` becomes an inline `(?i)` in front of the pattern.

## Modules

- `Decimal`:
  - decimal printing of line numbers (`NatToString`);
  - `str::parse::<usize>` (`ParseUsize`): an optional `+`, one or more ASCII digits, and a value of at most 2^64 - 1.
- `Highlight`:
  - the pattern as the search sees it: `isMatch` for `Regex::is_match`, and `split`, the partition of a line into matched and unmatched pieces that `replace_all` walks;
  - `HighlightRegex`;
  - `Strip`, which removes the escapes again and is Colorize's undo function.
- `Scanner`:
  - `MatchIndices`, the specification;
  - the loop `ScanMatches`.
- `Merge`:
  - `Window`, `MergeStep` and `MergeAll`, the specification;
  - the loop `MergeRanges`, whose body `AddWindow` widens the last range or pushes a new one;
  - the reference view of ranges as sets of covered lines (`Covered`, `Canonical`).
- `Render`:
  - `LineOut`, `LinesOut`, `RangesOut` and `RenderOut`, the specification;
  - the nested loops `RenderRanges`, `PrintSeparator` and `RenderBlock`;
  - a reference view of the output as one record per printed line index (`Indices`, `Records`);
  - a reference layout built from the printed indices alone, with `--` wherever two consecutive printed indices are not adjacent (`Layout`);
  - a reader for a printed line (`ParseRecord`).
- `Search`:
  - the whole of `search_in_file` after the file is read (`SearchOutput`, `SearchInFile`);
  - worked examples on a four-line file.
- `Args`:
  - the match on one argument (`Classify`, `Handle`);
  - the loop as a function (`ParseLoop`) and the post-processing (`Finish`);
  - `ParseArguments`, the loop over mutable locals.

Each modelled loop of the source is a method whose postcondition equals the specification function. The properties are lemmas about those functions.

The merge rule is `start <= last_end + 1` (line 62). A window that starts on the line right after the last range joins it, and only a gap of at least one unprinted line starts a new block after `--`. So on the file `alpha beta gamma delta`, with matches on `beta` and `delta` and one line before, the output is a single block `(0,3)`: the window of `delta` is `(2,3)` and touches `(0,1)`. `Search.TouchingWindowsShareBlock` states the lines printed.

## Model

| member | source | states |
|---|---|---|
| Highlight.HighlightRegex | code/src/main.rs:11-19 | with colour off the line is returned unchanged |
| Highlight.HighlightLength | code/src/main.rs:15-17 | a coloured line is longer than the original by exactly one red/reset escape pair per match |
| Highlight.StripColorize | code/src/main.rs:15-17 | removing the escapes from a coloured line gives back the text of its pieces |
| Highlight.HighlightPreservesText | code/src/main.rs:11-19 | for an escape-free line, removing the escapes from the highlighted line gives back the line, with colour on or off |
| Highlight.ColorizeWithoutHits | code/src/main.rs:15-18 | pieces without a match colour to their plain text, with no escape added |
| Highlight.HighlightWithoutHits | code/src/main.rs:11-19 | a correctly split line in which nothing matches is returned unchanged, with colour on or off |
| Scanner.ScanMatches | code/src/main.rs:42-47 | the collected indices equal MatchIndices, are strictly increasing, lie inside the file and contain i exactly when line i matches |
| Scanner.MatchIndicesCorrect | code/src/main.rs:42-47 | the match list is strictly increasing, below the line count, and holds exactly the matching indices |
| Scanner.NoMatches | code/src/main.rs:49-51 | no index is collected exactly when no line matches |
| Merge.Window | code/src/main.rs:58-59 | the window starts `before` lines above the match or at line 0, ends `after` lines below or at the last line, and contains the match |
| Merge.AddWindow | code/src/main.rs:61-71 | widening the last range in place or pushing the window yields MergeStep |
| Merge.MergeStepInvariant | code/src/main.rs:61-71 | one step keeps the ranges in bounds and separated by at least one line, adds exactly the window's lines, and keeps the first start |
| Merge.WidenCovered | code/src/main.rs:62-65 | widening the last range to the window's end covers the old lines plus the window's lines |
| Merge.PushCanonical | code/src/main.rs:66-70 | pushing a window that starts two or more lines after the last range keeps the ranges separated |
| Merge.MergeAllInvariant | code/src/main.rs:57-72 | for windows sorted by start and inside the file, the merged ranges are separated by at least one line and cover exactly the union of the windows |
| Merge.CanonicalUnique | code/src/main.rs:57-72 | two bounded, separated range sequences that cover the same lines are equal |
| Merge.ContextRangesCorrect | code/src/main.rs:55-72 | for a match list, the ranges are in bounds and separated, cover exactly the union of the clamped windows, and are the only such sequence |
| Merge.EachMatchInOneRange | code/src/main.rs:57-72 | every match lies in exactly one range |
| Merge.MergeIdempotent | code/src/main.rs:57-72 | merging the merged ranges again, each as a window, changes nothing |
| Merge.MergeRanges | code/src/main.rs:55-72 | the loop's ranges equal ContextRanges; for a match list they are in bounds, separated and cover the union of the windows |
| Merge.WrappedWindowMissesMatch | code/src/main.rs:59 | with wrapping addition, `-A 18446744073709551615` puts the end of the window of line index 1 (of 3) at 0, before the match; the unbounded window ends at 2 |
| Render.IndicesFacts | code/src/main.rs:81-87 | the printed line indices lie inside the file, strictly increase, and are exactly the lines the ranges cover |
| Render.LinesOutAsRecords | code/src/main.rs:87-104 | the block of a range is the record of each of its line indices, in order |
| Render.LineIsNotSeparator | code/src/main.rs:99-103 | no line record is the `--` separator |
| Render.RangesOutRecords | code/src/main.rs:81-105 | with the separators removed the blocks are the records of all printed indices in order; in no-heading mode there is nothing to remove |
| Render.RangesOutLayout | code/src/main.rs:81-104 | for separated ranges, the blocks with their `--` lines equal the reference layout of the printed indices: in heading mode `--` stands right before a record exactly when its index does not follow the previous printed index directly |
| Render.RangesOutSeparators | code/src/main.rs:81-85 | `--` occurs exactly once per range after the first in heading mode and never in no-heading mode |
| Render.RenderNonEmpty | code/src/main.rs:74-105 | a file with at least one range prints at least one line |
| Render.HeadingLineFormat | code/src/main.rs:99-100 | a heading-mode line reads back as the 1-based line number, ':' exactly on a match line and '-' otherwise, then the content |
| Render.FlatLineFormat | code/src/main.rs:101-102 | a no-heading line is the file name, the separator, then the same number-separator-content record with the same separator |
| Render.ContentFaithful | code/src/main.rs:93-97 | the content differs from the line only on a match line with colour on, and then only by inserted escapes |
| Render.RenderCorrect | code/src/main.rs:74-105 | the output is the header followed by the reference layout of the covered indices, so `--` stands exactly between two printed records whose indices are not consecutive. Heading mode: the file name comes first, `--` occurs `|ranges| - 1` times, and without them the rest are the records of the covered indices in order. No-heading mode: no `--`, only those records |
| Render.RenderBlock | code/src/main.rs:87-104 | the inner loop's lines equal LinesOut of the range |
| Render.PrintSeparator | code/src/main.rs:83-85 | `--` is appended before every range but the first, in heading mode only |
| Render.RenderRanges | code/src/main.rs:74-105 | the header and the outer loop's lines equal RenderOut |
| Decimal.ParseUsize | code/src/main.rs:226-238 | a parsed value fits a usize |
| Decimal.ParseNatToString | code/src/main.rs:226-238 | a printed number parses back to itself, with or without a leading '+' |
| Decimal.ParseRejectsSigns | code/src/main.rs:226-238 | the empty string, a lone '+' and anything starting with '-' are not numbers |
| Decimal.NatToStringInjective | code/src/main.rs:100 | two different line numbers never print the same |
| Search.MatchSetOf | code/src/main.rs:53 | an index is in the match set exactly when it is in the match list |
| Search.SilentIffNoMatch | code/src/main.rs:38-51 | a file prints nothing at all, not even its name, exactly when no line matches (an empty file included) |
| Search.SearchCorrect | code/src/main.rs:38-105 | for a file with a match, the ranges are in bounds and separated, each covered line is printed once in order, and every match shows ':' and every other line '-'. The output is the header followed by the reference layout, so `--` stands exactly between two printed lines whose indices are not consecutive. Heading mode: the name comes first and `--` appears `|ranges| - 1` times. No-heading mode: no `--` |
| Search.SearchInFile | code/src/main.rs:38-105 | the file's output equals SearchOutput |
| Search.SampleMatches | code/src/main.rs:42-47 | on the four-line file each line's index is collected exactly when the pattern matches it |
| Search.TouchingRanges | code/src/main.rs:57-72 | matches 1 and 3 with one line before: the windows (0,1) and (2,3) touch and merge into (0,3) |
| Search.TouchingWindowsShareBlock | code/src/main.rs:55-105 | so the file prints as one block without `--`, in both layouts, with the exact lines given |
| Search.OverlappingRanges | code/src/main.rs:57-72 | matches 1 and 2 with one line after: the windows (1,2) and (2,3) overlap and merge into (1,3) |
| Search.GapRanges | code/src/main.rs:57-72 | matches 0 and 3 without context stay two ranges (0,0) and (3,3) |
| Search.GapSeparatesBlocks | code/src/main.rs:74-105 | so heading mode prints `--` between the two blocks and no-heading mode does not, with the exact lines given |
| Args.Handle | code/src/main.rs:217-255 | a turn that continues consumes at least one argument and no more than remain, so the loop ends |
| Args.Finish | code/src/main.rs:257-273 | a configuration results exactly when a pattern was seen; the paths are "." when none were given; the pattern gets `(?i)` in front exactly with -i |
| Args.OptionsAreDashed | code/src/main.rs:217-240 | every option spelling starts with '-' and none is a number |
| Args.ContextIsAfterAndBefore | code/src/main.rs:234-239 | `-C v` does what `-A v -B v` does: it sets both counts to v |
| Args.LoopAppend | code/src/main.rs:216-256 | when the loop runs through a first part of the arguments, it goes on with the rest from the state the first part left |
| Args.LaterAfterOverrides | code/src/main.rs:226-239 | after any arguments that leave the loop going (an earlier `-C v` among them), `-A w` sets the after count to w and changes nothing else |
| Args.LaterBeforeOverrides | code/src/main.rs:230-239 | after any arguments that leave the loop going, `-B w` sets the before count to w and changes nothing else |
| Args.ContextThenAfter | code/src/main.rs:204-273 | `pat -C 3 file -A 1` runs with before 3, after 1, pattern `pat` and the single path `file` |
| Args.ContextValueRequired | code/src/main.rs:226-236 | a context option at the end is a missing-value error; any following value that does not parse as a usize, `--help` included, stops the loop with an invalid-number error whatever follows |
| Args.InvalidContextValue | code/src/main.rs:226-236 | after any prefix that lets the loop go on, a context option followed by a value that does not parse makes the whole parse an invalid-number error, whatever follows (so `pat -A x -A 1` fails) |
| Args.BadValueBeforeGood | code/src/main.rs:226-229 | `pat -A x -A 1` is an invalid-number error for `-A` and not an after count of 1 |
| Args.PathsAccumulate | code/src/main.rs:246-252 | once the pattern is known, every non-option argument is appended to the paths in order, even one that starts with '-' |
| Args.PlainArguments | code/src/main.rs:240-268 | without options the first argument is the pattern and the others are the paths, "." when there are none |
| Args.SwitchesLoop | code/src/main.rs:222-225 | a leading run of switches, in any number and order, only sets the flag of each switch in it; the loop then goes on with the rest as if from that state |
| Args.SwitchesOnly | code/src/main.rs:257-264 | switches without any other argument fail with the no-pattern error |
| Args.StopsBeforePattern | code/src/main.rs:216-245 | after any arguments that leave the loop going: with no pattern yet, an unknown dash argument is an error whatever follows; `--help` gives the help outcome, pattern or not |
| Args.StopIsNotRun | code/src/main.rs:216-255 | the loop stops early only with help or an error |
| Args.LoopBounds | code/src/main.rs:226-238 | the counts the loop ends with fit a usize |
| Args.LoopCounts | code/src/main.rs:226-239 | when the loop runs to the end, each count is the number given with the last `-A`/`-C` (after) or `-B`/`-C` (before) read as an option, or what it was before when there is none |
| Args.LoopFlags | code/src/main.rs:222-225 | when the loop runs to the end, each flag is set exactly when its switch occurs among the arguments |
| Args.LoopOperands | code/src/main.rs:240-253 | the loop's pattern is the first operand and its paths are the remaining operands in order |
| Args.RunFacts | code/src/main.rs:204-273 | in a configuration each flag is on exactly when one of its spellings was given, each count is the number given with the last option that sets it (0 without one) and fits a usize, the pattern is the first operand (with `(?i)` exactly under -i), and the paths are the other operands or "." |
| Args.NoOperandNoRun | code/src/main.rs:257-264 | without an operand there is never a configuration |
| Args.ParseArguments | code/src/main.rs:204-273 | the loop over mutable locals, followed by the post-processing, gives ParseArgs |

## Left out

- Reading the file (lines 28-37): `File::open`, `BufReader` and the early return on a read error. The lines are a parameter.
- `handle_path`, `check_path`, `is_hidden` and `is_text_file` (lines 109-188) are not part of this model. They are filesystem plumbing and library predicates.
- The regex engine. A pattern is its `is_match` predicate and its split of a line into matched and unmatched pieces. Compiling the pattern with `Regex::new` (line 274) is left out, and so is its error for an invalid pattern.
- `println!`/`eprintln!`. Output is a returned sequence of lines; the messages on standard error are not modelled.
- The text of the help message and the exit codes. `--help` gives the `Help` outcome. `process::exit(1)` and the `expect` panics give `Failure` values naming the cause.
- The iteration over the paths after parsing (lines 276-286) is not part of this model.
- Decimal.ParseUsize assumes a 64-bit target, so the largest accepted value is 2^64 - 1.
- Merge.Window uses unbounded integers, so `idx + after` never overflows; the wrapping behaviour is shown separately under Findings.
- `Rust/src/main.rs` is not part of this model. It is a prototype with fixed arguments that duplicates the scanner.

## Findings

| source | as written | input that shows it | evidently intended | confidence | as-written member | corrected member |
|---|---|---|---|---|---|---|
| code/src/main.rs:59 | `(idx + after_context).min(lines.len() - 1)` adds two `usize` values. A release build wraps the sum around 2^64; a debug build panics. | `-A 18446744073709551615` on a three-line file whose second line matches. The wrapped sum is 0, so the window is (1,0). The block loop prints nothing for it, and the matching line never appears. | a saturating end, clamped to the last line, so the window always contains its match | not executed: derived from integer semantics | Merge.WrappedWindowMissesMatch | Merge.Window |
