# quick-question terminal formatter and input rules, in Dafny

`qq` is a command-line tool that sends a question to a language-model API
and prints the answer. This project models its two pieces of real logic:

- **The Markdown-to-ANSI formatter** (`format_for_terminal` in
  `format_test.rs`). It makes five passes over the whole string, in a fixed
  order:
  1. It deletes every "```" fence.
  2. It runs a generic paired-marker scanner (`replace_markdown_pattern`)
     for `**` (bold).
  3. It runs the same scanner for a backtick (inline code).
  4. It runs the same scanner for `~~` (strikethrough).
  5. It finishes with a single-asterisk italic scanner
     (`replace_single_asterisk_italic`).

  Each scanner walks the characters left to right with explicit indices. It
  looks ahead for the nearest closing marker and, if there is one, emits the
  start escape sequence, the content verbatim, then the reset sequence.
  Otherwise it emits one literal character and moves on.
- **Two decision rules from `src/main.rs`:**
  - `looks_like_incomplete_input`, the heuristic that flags a question the
    shell probably cut short;
  - the ordered classification of an API error text into one of four
    messages.

## Layout

- `text.dfy`, module `Text`: substring occurrence (`OccursAt`), `Contains`
  (as `str::contains`), character absence (`Lacks`), and the suffix relation
  `IsShift` used to compare a scan of a buffer with a scan of its suffix.
- `formatter.dfy`, module `Formatter`, has three parts:
  - **Fence deletion.**
  - **The paired-marker scanner.** The spec function `PatternFrom` describes
    the output from scan position `i`. The imperative `ReplaceMarkdownPattern`
    mirrors the Rust `while` loops and is proved equal to it.
  - **The italic scanner.** `ItalicFrom` and `ReplaceSingleAsteriskItalic`
    play the same roles.

  It also defines `FormatForTerminal`, the composition of the five passes,
  and the end-to-end lemmas about it.
- `cli.dfy`, module `Cli`: `LooksLikeIncompleteInput` with an explicit UTF-8
  byte length, and `ClassifyError`.

The escape sequences are the ones in the source:

| pass | start | end |
|---|---|---|
| bold | `ESC[1m` | `ESC[0m` |
| code | `ESC[93m` | `ESC[0m` |
| strikethrough | `ESC[9m` | `ESC[0m` |
| italic | `ESC[3m` | `ESC[0m` |

The spec functions of both scanners take the start and end sequences as
parameters. `SingleAsteriskItalic` and `FormatForTerminal` instantiate them.

## Passes see each other's output

Each pass runs over the whole result of the previous one, and no pass skips
text inside an earlier pass's escape sequences. So the italic pass reaches
inside a bold span: on `**a*b*c**` the bold pass gives `ESC[1m` + `a*b*c` +
`ESC[0m`, and the italic pass then makes `b` italic. `FormatItalicInsideBold`
proves the output is bold-on, `a`, italic-on, `b`, reset, `c`, reset.

## Model

| member | source | states |
|---|---|---|
| Formatter.RemoveFences | format_test.rs:8 | fence deletion, `replace("```", "")`, leftmost first and non-overlapping; the result is never longer than the input |
| Formatter.RemoveFencesInsertsNothing | format_test.rs:8 | fence deletion adds no character, in particular no escape sequence: the output multiset is contained in the input multiset |
| Formatter.RemoveFencesKeepsText | format_test.rs:8 | only backticks are removed: every other character survives, in its original order |
| Formatter.RemoveFencesLeavesNoFence | format_test.rs:8 | no "```" remains after deletion, so deleting one fence never joins backticks into a new fence |
| Formatter.RemoveFencesIdentity | format_test.rs:8 | text without backticks passes through fence deletion unchanged |
| Formatter.RemoveFencesNoFence | format_test.rs:8 | text in which "```" never occurs passes through fence deletion unchanged |
| Formatter.RemoveFencesCopy | format_test.rs:8 | a prefix in which no fence starts (judged in the whole text, so it may hold single backticks) is kept, and deletion continues on the rest |
| Formatter.RemoveFencesLeftmost | format_test.rs:8 | deletion is leftmost first: whatever the prefix holds, the first fence in the text is the one deleted, and deletion goes on after it, so "````" leaves one backtick |
| Formatter.InlineCodeBeforeFence | format_test.rs:8 | an inline code mark before a fence is kept: "`a```b" becomes "`ab" |
| Formatter.RemoveFencesWholeFences | format_test.rs:8 | characters are only removed as whole fences: the number removed is a multiple of three |
| Formatter.FenceExample | format_test.rs:8 | "```block```" becomes "block" |
| Formatter.FindMarker | format_test.rs:34-46 | the look-ahead finds an index at or after the search start at which the whole marker fits |
| Formatter.FindMarkerNearest | format_test.rs:34-46 | the found closer is the nearest later occurrence of the marker; nothing is found only when the marker does not occur again |
| Formatter.ScanForMarker | format_test.rs:34-46 | the inner `while j` loop stops at the nearest occurrence, or with `j + len` past the end exactly when there is none |
| Formatter.PatternFrom | format_test.rs:30-56 | no contract of its own: the output of the outer loop from index `i` on, the reference definition that `ReplaceMarkdownPattern` is proved to compute and that `PatternSpan`, `PatternCopy`, `PatternNoPair` and `PatternShift` characterise |
| Formatter.MarkdownPattern | format_test.rs:25-59 | no contract of its own: `replace_markdown_pattern` as a value, the scan from index 0; its properties are stated by the `Pattern...` lemmas |
| Formatter.ReplaceMarkdownPattern | format_test.rs:25-59 | the imperative scan (index loop, push into a buffer) returns exactly the specified output `MarkdownPattern` |
| Formatter.PatternSpan | format_test.rs:31-43 | `m + c + m + rest`, where no marker starts inside `c`, gives start + `c` + end followed by the scan of `rest` as if it stood alone; the content is not rescanned in this pass |
| Formatter.PatternCopy | format_test.rs:52-55 | a prefix in which no marker starts is copied through unchanged, and the rest is scanned on its own |
| Formatter.PatternNoPair | format_test.rs:47-51 | when no marker occurrence has a later non-overlapping occurrence, the text is returned unchanged: an unmatched opener stays literal |
| Formatter.PatternAbsent | format_test.rs:52-55 | text without the marker's first character is returned unchanged |
| Formatter.PatternShift | format_test.rs:30-56 | the scan of a buffer from position `i` equals the scan of its suffix from the corresponding position: the scan depends only on what lies ahead |
| Formatter.PatternDrop | format_test.rs:30-56 | the scan from index `k` equals the scan of the suffix starting at `k` |
| Formatter.PatternWrap | format_test.rs:31-43 | a lone pair around content without the marker's first character becomes start + content + end |
| Formatter.IsItalicOpener | format_test.rs:67-72 | no contract of its own: a `*` with no `*` directly before or after it in the buffer; `ItalicSpanCloser`, `ItalicNoOpener` and `ItalicCopy` state what follows from it |
| Formatter.IsItalicCloser | format_test.rs:76 | no contract of its own: a `*` not directly followed by another `*`; `FindItalicCloserNearest` states that the look-ahead stops at the first one |
| Formatter.FindItalicCloser | format_test.rs:74-86 | the italic look-ahead returns an in-range index at or after the search start |
| Formatter.FindItalicCloserNearest | format_test.rs:74-86 | the closer is the first later `*` not followed by `*`; none is found only when no such `*` remains |
| Formatter.ScanForItalicCloser | format_test.rs:74-86 | the inner `while j` loop stops at the first closer, or at the end exactly when there is none |
| Formatter.ItalicFrom | format_test.rs:66-100 | no contract of its own: the output of the outer italic loop from index `i` on, the reference definition that `ReplaceSingleAsteriskItalic` is proved to compute and that `ItalicSpan`, `ItalicCopy`, `ItalicNoPair` and `ItalicShift` characterise |
| Formatter.SingleAsteriskItalic | format_test.rs:61-103 | no contract of its own: `replace_single_asterisk_italic` as a value, the scan from index 0; its properties are stated by the `Italic...` lemmas |
| Formatter.ReplaceSingleAsteriskItalic | format_test.rs:61-103 | the imperative italic scan, including the neighbour checks, returns exactly the specified output `SingleAsteriskItalic` |
| Formatter.ItalicNoOpener | format_test.rs:69-72 | text in which every `*` touches another `*`, like what bold markers leave, comes back unchanged |
| Formatter.ItalicNoStar | format_test.rs:96-98 | text without `*` comes back unchanged |
| Formatter.ItalicNoPair | format_test.rs:87-91 | when no opener has a closer after it, the text comes back unchanged: an unclosed `*` is literal |
| Formatter.ItalicUnclosed | format_test.rs:87-91 | `a + "*" + b`, where `a` has no opener and `b` has no `*`, is returned unchanged |
| Formatter.ItalicSpanCloser | format_test.rs:69-86 | in `"*" + c + "*" + rest` the first `*` opens and the second closes, when `c` is non-empty, does not start with `*`, no `*` inside `c` can close, and `rest` does not start with `*` |
| Formatter.ItalicSpan | format_test.rs:74-83 | under the same conditions (`c` non-empty and not starting with `*`, no closer inside `c`, `rest` not starting with `*`) the output is the italic sequence, `c`, the reset, then the scan of `rest` as if it stood alone |
| Formatter.ItalicShift | format_test.rs:66-100 | the italic scan of a buffer equals the scan of its suffix from the corresponding position, unless the suffix cuts away the `*` the opener test looks back at |
| Formatter.ItalicDrop | format_test.rs:66-100 | the scan from `k` equals the scan of the suffix starting at `k` when the character before `k` cannot change the opener test |
| Formatter.ItalicCopy | format_test.rs:92-98 | a prefix in which no `*` opens (judged in the whole text) is copied through, and the rest is scanned on its own, unless the prefix ends in `*` and `rest` starts with `*` |
| Formatter.ItalicBetween | format_test.rs:74-98 | `pre + "*" + b + "*" + post`, with no `*` in the three parts and `b` non-empty, becomes `pre`, italic sequence, `b`, reset, `post` |
| Formatter.FormatForTerminal | format_test.rs:4-23 | the five passes in source order, each over the whole previous result; its contract states that text with no `*`, backtick or `~` comes back unchanged, and the `Format...` lemmas state what each kind of span becomes |
| Formatter.FormatBoldSpan | format_test.rs:4-23 | `"**" + c + "**"` with plain `c` gives `ESC[1m` + `c` + `ESC[0m`; with `c` empty, `"****"` gives an empty bold span |
| Formatter.FormatCodeSpan | format_test.rs:4-23 | a backtick, plain `c`, a backtick gives `ESC[93m` + `c` + `ESC[0m` |
| Formatter.FormatStrikeSpan | format_test.rs:4-23 | `"~~" + c + "~~"` with plain `c` gives `ESC[9m` + `c` + `ESC[0m` |
| Formatter.FormatItalicSpan | format_test.rs:4-23 | `"*" + c + "*"` with non-empty plain `c` gives `ESC[3m` + `c` + `ESC[0m` |
| Formatter.FormatFencedBlock | format_test.rs:4-23 | "```" + `c` + "```" with plain `c` gives `c` unchanged, without any escape sequence |
| Formatter.FormatUnmatchedBold | format_test.rs:4-23 | `"**" + c` with plain `c` comes back verbatim, without any escape sequence |
| Formatter.FormatItalicInsideBold | format_test.rs:4-23 | `**a*b*c**` gives bold `a`, then italic `b`, reset, `c`, reset: the italic pass reaches inside the bold span |
| Formatter.BoldAroundItalic | format_test.rs:11 | the bold pass wraps all of `a*b*c`; the single asterisks inside do not end the span |
| Cli.Utf8Len | src/main.rs:147 | `str::len` counts UTF-8 bytes: at least the number of characters and at most four times it, equal exactly for all-ASCII text |
| Cli.AnyShellSpecial | src/main.rs:147 | true exactly when some character is `'`, `"`, backtick or backslash |
| Cli.LooksLikeIncompleteInput | src/main.rs:141-148 | a trailing `'`, `"` or backslash always flags the input; input without special characters is flagged exactly when it is empty |
| Cli.EmptyIsIncomplete | src/main.rs:146 | the empty question is flagged |
| Cli.DanglingEndIsIncomplete | src/main.rs:143-145 | a question ending in `'`, `"` or backslash is flagged, whatever its length |
| Cli.ShortWithSpecialIsIncomplete | src/main.rs:147 | a question under five bytes with a special character anywhere is flagged |
| Cli.LongUnterminatedIsComplete | src/main.rs:141-148 | a non-empty question of five or more bytes that does not end in `'`, `"` or backslash is accepted, even with quotes or backticks inside |
| Cli.PlainIsComplete | src/main.rs:141-148 | a non-empty question without special characters is accepted |
| Cli.LengthIsCountedInBytes | src/main.rs:147 | the threshold counts bytes: "ab`" is flagged, but two two-byte letters followed by a backtick (five bytes) are not |
| Text.Contains | src/main.rs:73-77 | `str::contains` with a string pattern: true exactly when the pattern occurs at some index of the text |
| Cli.ClassifyError | src/main.rs:73-81 | each message is chosen exactly when its keyword group matches and no earlier group does: network, then tokens, then authentication, otherwise generic |
| Cli.NetworkBeatsAuth | src/main.rs:73-78 | a text that contains both "connection" and "401", in either order, is reported as no internet connection |
| Cli.QuotaBeatsAuth | src/main.rs:75-78 | a text that contains "quota" but no network keyword is reported as out of tokens, even if it mentions authentication |

## Left out

- Command-line parsing (clap), reading stdin or a terminal, interactive prompting, the tokio runtime, the config file (`src/config.rs`) and the HTTP provider (`src/providers/`): these are input/output and foreign calls.
- The printing `main` of `format_test.rs` (lines 105-115) only prints a sample.
- In `src/main.rs`, the printing of messages and `std::process::exit` are not modelled. `Cli.ClassifyError` returns which message is printed. The text of the error, which the generic message appends, is taken as a parameter.
- `Formatter.RemoveFences` models the library call `str::replace("```", "")`. It is not a model of that library's own code.
- `Formatter.ReplaceMarkdownPattern` requires a non-empty marker. With an empty marker and non-empty text the Rust loop never advances `i` and does not terminate, and the formatter only ever passes `**`, a backtick or `~~`.
- Marker length is counted in characters. The source uses `marker.len()`, a byte count, but every marker is ASCII, so the two agree.
- The output buffer (`String` with `push_str`/`push`) is modelled as sequence concatenation.
- The end-to-end lemmas (`Formatter.FormatBoldSpan` and its siblings) are stated for any plain content rather than for the single literal strings of the examples; each literal example is an instance.
- Idempotence of `FormatForTerminal` is not a property of the code: a second run rescans its own output. For example, `*a**b*` gives italic `a*` followed by `b*`, and a second run pairs the remaining asterisks. No lemma states idempotence.
