# md_lint scanner, modelled in Dafny

`md_lint.py` is a Markdown linter. The model covers three parts of it.

- `check_file` reads one document and runs two whole-text checks:
  - W-CRLF, for `\r\n` line breaks in the text;
  - W-NOEOFNL, for a missing final newline.

  As written, the read translates newlines, so W-CRLF can never fire (see
  "## Findings"). The model's `check_file` runs on the untranslated text.
- It then splits the text into lines and walks them once. The walk carries a
  small state:
  - whether a code fence is open, with its marker character and indentation;
  - the level of the last heading;
  - whether a level-1 heading has been seen;
  - the pipe counts of the current table block.

  At each line it appends findings in a fixed order of checks:
  - trailing whitespace;
  - blank runs;
  - line length without inline code;
  - tabs;
  - headings;
  - links and images;
  - table blocks;
  - list indentation.

  At the end it reports an unclosed fence and flushes the last table block.
- `is_markdown_file` accepts a path whose lower-cased extension, as
  `os.path.splitext` finds it, is one of `.md`, `.markdown`, `.mdown` or `.mkdn`.

The model is functional.

- **`Scanner`** holds the core of the pass:
  - the state record is `ScanState`;
  - one line is a pure function, `Step`;
  - the pass is a fold over the lines, `Run`;
  - the end of the document is `Finalize`.
- **`ScanLoop`** writes the same pass as the loop `check_file` uses. The
  `CheckLines` method is proved equal to the fold. `Check` runs it on the
  untranslated text, and `CheckAsWritten` on the text after newline
  translation.
- **`ScanProperties`** states document-level properties. They are stated against
  reference definitions that read the lines directly:
  - `OpenFence`: the fence open after the first `k` lines;
  - `LastLevel` and `SeenH1`: the headings so far;
  - `TableBlock`: the table rows just before a line.
- **`Patterns`** holds the module-level regular expressions, written as string
  functions over one line. Each comes with a soundness, completeness or
  round-trip lemma. It also holds the scheme part of `urlparse`, the
  `splitlines` split, and the joins that invert it with `\n` or `\r\n` breaks.
- **`Reading`** holds the newline translation of a text-mode read and
  `check_file` as written on top of it.
- **`Issues`** holds the `Issue` record and its closed set of codes. A code
  carries the numbers and the scheme its message embeds.
- **`MarkdownFiles`** holds `is_markdown_file` and the cases of its unit test.
- **`Text`**, **`Seqs`** and **`Wrappers`** hold small helpers:
  - Python `str` operations (`isspace`, `strip`, `lower`, `count`, `find`, `rfind`);
  - a flat-map;
  - `Option`.

Line numbers follow the source. Line `n` of a document is `lines[n - 1]`. The
whole-text findings are at line 1 (W-CRLF) and line 0 (W-NOEOFNL).

The model follows the code where it differs from how the linter describes its
own rules.

- **Blank runs.** W-MULTIBLANK fires from the third line on whenever the
  current line and the one before it are both blank. Two consecutive blank
  lines suffice, although the comment and the message speak of more than two.
  The index at md_lint.py:127 looks at `lines[i-1]`, which is the current line
  itself.
- **Empty link targets.** `[text]()` is not a link at all: the target group of
  the link pattern needs at least one character. So that line gets no
  E-EMPTYURL (`Patterns.EmptyTargetNoLink`). E-EMPTYURL can only come from a
  target of whitespace.
- **Fence lines.** A fence line gets no check at all, not even W-TRAIL. Only
  the lines between the fences are checked for trailing whitespace.
- **Tables and fences.** Fence lines and fenced lines neither extend nor end a
  table block.
- **Seven or more `#`.** They still make a level-6 heading, whose text starts
  with the surplus `#` (`Patterns.TooManyHashes`).
- **Schemes behind whitespace.** `urlparse` strips leading spaces and control
  characters before it looks for a scheme. So `[x]( ftp://h)` gets W-SCHEME
  for `ftp` (`Patterns.SchemeAfterSpace`).

## Model

| member | source | states |
|---|---|---|
| Patterns.FenceMatch | md_lint.py:18 | A fence match records a marker that is a backtick or a tilde. Its indentation is a whitespace prefix of the line. Three copies of the marker follow that indentation. |
| Patterns.FenceRoundTrip | md_lint.py:18 | Any whitespace indentation, three equal markers and any info string are recognised as a fence with that marker and that indentation. |
| Patterns.HeadingMatch | md_lint.py:19 | A line is a heading exactly when it starts with `#`. The level is between 1 and 6. |
| Patterns.HeadingShape | md_lint.py:19 | A matched heading is its run of `#`, then whitespace, then a text that starts with no whitespace and runs to the end of the line. The run is the whole run unless it is longer than six. |
| Patterns.HeadingRoundTrip | md_lint.py:19 | `#` repeated `level` times (1 to 6), a space and a text not starting with whitespace are recognised as that level and that text. |
| Patterns.TooManyHashes | md_lint.py:19 | Seven or more `#` give a level-6 heading whose text starts with the surplus `#`. |
| Patterns.LinkAtSound | md_lint.py:20 | What the link pattern returns at a position is an occurrence there: optional `!`, then `[text](url)` with no `]` in the text, no `)` in the url, and a non-empty url. |
| Patterns.LinkAtComplete | md_lint.py:20 | Wherever such an occurrence starts, the pattern returns exactly that occurrence. |
| Patterns.EmptyTargetNoLink | md_lint.py:20 | `[text]()` is no match at its start, so an empty target never reaches the url checks. |
| Patterns.FindLinksInOrder | md_lint.py:163 | The occurrences `finditer` reports lie in the searched part of the line. They come in order and never overlap. |
| Patterns.FindLinksSound | md_lint.py:163 | Every reported occurrence is the pattern's match at its own start. |
| Patterns.FindLinksCovers | md_lint.py:163 | No occurrence is missed: every position where the pattern matches starts a reported occurrence or lies inside one. |
| Patterns.LinkAt | md_lint.py:20 | A match found at a position starts there and ends inside the line. `LinkAtSound` and `LinkAtComplete` tie it both ways to the occurrence definition. |
| Patterns.FindLinks | md_lint.py:163 | The list `finditer` yields, left to right from a position. Its contract is stated by `FindLinksInOrder`, `FindLinksSound` and `FindLinksCovers`. |
| Patterns.SchemeName | md_lint.py:174 | On a cleaned url: a scheme exists only if there is a `:`. A found scheme is a lower-cased scheme name (a letter, then letters, digits, `+`, `-` or `.`), and exactly the text before the first `:`. |
| Patterns.Scheme | md_lint.py:174 | A scheme exists only if the url has a `:`. A found scheme is a lower-cased scheme name. The url is cleaned first, as `urlparse` does: leading spaces and C0 controls are stripped, and tabs, CRs and LFs are deleted. |
| Patterns.SchemeNameRoundTrip | md_lint.py:174 | On a cleaned url, a scheme name followed by `:` is always extracted, lower-cased. |
| Patterns.SchemeRoundTrip | md_lint.py:174 | Any leading spaces and controls, a scheme name, `:` and any rest give that scheme, lower-cased. |
| Patterns.SchemeAfterSpace | md_lint.py:174-176 | ` ftp://host` has the scheme `ftp`, so a link to it gets W-SCHEME. |
| Patterns.StripCode | md_lint.py:21 | Removing the backtick spans never lengthens the line. A line without backticks is unchanged. At most one backtick is left over. |
| Patterns.StripCodeParity | md_lint.py:21 | Spans go in pairs of backticks: one backtick is left exactly when the line has an odd number of them. |
| Patterns.StripCodeLone | md_lint.py:21 | A single unmatched backtick opens no span. The line, backtick included, is kept unchanged. |
| Patterns.StripCodeSpan | md_lint.py:21 | A backtick-delimited span contributes nothing: prose, then a span, then the rest strips to the prose followed by the stripped rest. |
| Patterns.ListIndent | md_lint.py:23 | A reported indentation is a whitespace prefix of the line. A list marker follows it (`-`, `+`, `*`, or digits and `.`), and then a whitespace character. |
| Patterns.ListIndentComplete | md_lint.py:23 | Whitespace, a list marker and a whitespace character are always recognised, with that whitespace as the indentation. With `ListIndent`'s contract, the lines that give `None` are exactly those without this shape. |
| Patterns.ListRoundTrip | md_lint.py:23 | Any whitespace indentation, a `-`, `+` or `*` bullet and a whitespace character are recognised as a list item with that indentation. |
| Patterns.OrdinalRoundTrip | md_lint.py:23 | Any whitespace indentation, one or more digits, `.` and a whitespace character are recognised as a list item with that indentation. |
| Patterns.IsTableRow | md_lint.py:24 | The stripped line starts and ends with a pipe, two distinct ones. `TableRowPipes` and `TableRowRoundTrip` state what follows from it. |
| Patterns.TableRowPipes | md_lint.py:24 | Every table row holds at least two pipes, so every table-block entry is at least 2. |
| Patterns.TableRowRoundTrip | md_lint.py:24 | Whitespace, a pipe, any cells, a pipe and whitespace always make a table row. |
| Patterns.SplitLines | md_lint.py:86 | No line of the split contains a newline. The split is empty exactly when the text is. |
| Patterns.SplitJoin | md_lint.py:86 | Joining lines with a newline after each and splitting the result gives the lines back, for lines without `\n` and without a final `\r`. |
| Patterns.SplitAppendNewline | md_lint.py:86 | Adding the missing final `\n` to a non-empty text adds no line: the split is unchanged. |
| Patterns.CrlfAppendNewline | md_lint.py:79 | Adding a final `\n` after anything but `\r` neither creates nor removes a `\r\n`. |
| Patterns.CrlfAfterCr | md_lint.py:79 | Adding a final `\n` after a `\r` creates a `\r\n`. |
| Patterns.SplitLast | md_lint.py:86 | A text whose last line has no newline after it splits into all its lines, the last one included. |
| Patterns.SplitJoinCrlf | md_lint.py:86 | Joining lines with `\r\n` after each and splitting the result gives the lines back, for lines without `\n`. |
| Patterns.HasTrailingBlank | md_lint.py:22 | The line ends in a space or a tab. `TrailingBlankSearch` ties it to the search for a run of them at the end. |
| Patterns.TrailingBlankSearch | md_lint.py:22 | The trailing-space search succeeds exactly when, from some position to the end, the line is a non-empty run of spaces and tabs. |
| Patterns.TrailingBlankOf | md_lint.py:22 | Appending spaces and tabs to a line gives it a trailing blank. Without them, only the line's own end can. |
| Patterns.ContainsCrlf | md_lint.py:25 | The text holds `\r` directly followed by `\n`. `CrlfJoinDetected` and `NoCrJoin` give both directions on joined texts. |
| Patterns.CrlfJoinDetected | md_lint.py:25 | A non-empty text with `\r\n` breaks contains `\r\n`. |
| Patterns.NoCrJoin | md_lint.py:25 | A text joined with `\n` breaks, from lines without `\r`, holds no `\r` and so no `\r\n`. |
| Patterns.EndsWithNewline | md_lint.py:83 | The text's last character is `\n`. `JoinEndsWithNewline` and `NoFinalNewline` give both directions on joined texts. |
| Patterns.JoinEndsWithNewline | md_lint.py:83 | A non-empty text joined with `\n` or with `\r\n` breaks ends in a newline. |
| Patterns.NoFinalNewline | md_lint.py:83 | A text whose last line is non-empty and has no break after it does not end in a newline. |
| Issues.Name | md_lint.py:29-36 | Each code's category string has an `E-` or `W-` prefix. The prefix is `E-` exactly for the structural errors: read failure, heading space, empty heading, missing alt text, empty url and unclosed fence. |
| Scanner.Majority | md_lint.py:189 | The expected pipe count of a block occurs in the block, and no count occurs more often. |
| Scanner.Mismatches | md_lint.py:190-192 | One W-TABLEPIPES per entry that differs from the expected count. For every other count `v`, the findings naming `v` as actual are exactly as many as the entries equal to `v`. Every finding is at the flushing line, column 1, and carries the expected count. |
| Scanner.MismatchesInOrder | md_lint.py:190-192 | The findings come in block order: the k-th names the k-th entry that differs from the expected count, as `[cnt for cnt in run if cnt != expected]` lists them. |
| Scanner.Flush | md_lint.py:186-193 | An empty block reports nothing. Otherwise each finding names a most frequent count as expected. Every other count `v` is named as actual exactly as many times as it occurs in the block. |
| Scanner.TrailIssues | md_lint.py:122-124 | W-TRAIL is reported once, at column = line length, exactly when the line ends in a space or tab. Nothing else is reported. |
| Scanner.MultiBlankIssues | md_lint.py:126-128 | W-MULTIBLANK is reported once, at column 1, exactly when the line is the third or later and both it and the line before it are blank. |
| Scanner.LineLenIssues | md_lint.py:130-133 | W-LINELEN is reported once exactly when the line, with its inline code spans removed, is longer than the limit. It carries that length and the limit, at column limit + 1. |
| Scanner.TabIssues | md_lint.py:135-137 | W-TAB is reported once exactly when the line contains a tab. Its column is one past the first tab: that position holds a tab and none comes before it. |
| Scanner.HeadingRules | md_lint.py:139-160 | For a matched heading, each of the following is reported exactly when its condition holds, and nothing else is reported: <br>• E-HEADSPACE at the column after the hashes, when no space follows them; <br>• E-EMPTYHEAD one column further, when the text is blank; <br>• W-MULTIH1, when a level-1 heading comes after an earlier one; <br>• W-HEADJUMP, naming both levels, when the level exceeds the last heading's by more than one and a heading came before. <br>Each of the four occurs once when its condition holds. |
| Scanner.HeadJumpCount | md_lint.py:157-160 | For a matched heading, W-HEADJUMP occurs once, naming the last and the new level, when the level rises by more than one. No W-HEADJUMP with other levels occurs. |
| Scanner.HeadingIssues | md_lint.py:139-160 | A line that is not a heading gets no heading finding. All heading findings are at the line and come from the heading rule. |
| Scanner.SchemeIssues | md_lint.py:173-176 | W-SCHEME is reported exactly when the url has a scheme outside http, https and mailto. It names that scheme and occurs at most once. |
| Scanner.MatchFindings | md_lint.py:164-176 | For one occurrence: <br>• E-NOALTTEXT exactly for an image with blank text; <br>• W-EMPTYLINKTEXT exactly for a link with blank text; <br>• E-EMPTYURL exactly for a blank target; <br>• W-SCHEME exactly for a disallowed scheme. <br>All of them are at the occurrence's start column + 1. |
| Scanner.MatchIssues | md_lint.py:164-176 | Every finding of an occurrence is at the occurrence's line and start column + 1, and is a link finding. |
| Scanner.MatchCounts | md_lint.py:166-176 | For one occurrence, E-NOALTTEXT, W-EMPTYLINKTEXT, E-EMPTYURL and W-SCHEME each occur once when their condition holds and not at all otherwise. W-SCHEME naming `v` occurs once exactly when `v` is the target's scheme and is not allowed. |
| Scanner.MatchSchemeCount | md_lint.py:173-176 | For one occurrence, W-SCHEME naming `v` occurs once when `v` is the target's scheme and is not allowed, and not at all otherwise. |
| Scanner.MatchTextCounts | md_lint.py:166-171 | For one occurrence, E-NOALTTEXT, W-EMPTYLINKTEXT and E-EMPTYURL each occur once when their condition holds and not at all otherwise. |
| Scanner.LinkIssues | md_lint.py:162-176 | All of a line's link findings are at that line and come from the link rule. |
| Scanner.LinkChecks | md_lint.py:162-176 | A line's link findings are exactly the findings of the occurrences the search reports: every reported occurrence is checked, and nothing else contributes. |
| Scanner.ListIssues | md_lint.py:195-200 | W-LISTTAB is reported once, at column 1, exactly when the line is a list item whose indentation contains a tab. |
| Scanner.TableEnd | md_lint.py:178-193 | A line's table-end findings are at that line and come from the table rule. `TableReport` pins them to the flush of the block the line ends. |
| Scanner.ProseState | md_lint.py:178-193 | A prose line keeps the fence state, and table-block entries remain pipe counts of table rows (at least 2). |
| Scanner.ProseIssues | md_lint.py:122-200 | All findings of a prose line are at that line. |
| Scanner.ProseByRule | md_lint.py:122-200 | The checks of a prose line do not interfere. Each rule's findings are exactly what that rule reports on its own, and rules that do not apply to prose lines report nothing. |
| Scanner.StepContract | md_lint.py:99-120 | One line of the pass: <br>• all findings are at that line; <br>• a fence line reports nothing, and it opens a fence when none is open, closes the open one only when marker and indentation both agree, and otherwise changes nothing; <br>• inside a fence the state is unchanged and only W-TRAIL at the line's length is possible. |
| Scanner.Step | md_lint.py:96-200 | One line of the pass, as a function of the state before it. `StepContract` and `StepReference` state what it does. |
| Scanner.Run | md_lint.py:96-200 | The fold over the first `k` lines keeps one list of findings per line. |
| Scanner.RunRange | md_lint.py:96-200 | After any number of lines, each line's findings are at that line and carry per-line codes. Table entries stay at least 2. |
| Scanner.Finalize | md_lint.py:202-211 | The end of the document reports: <br>• E-FENCE once, at the last line, exactly when a fence is open; <br>• the table flush of the open block, at the last line; <br>• nothing else. |
| Scanner.ScanIssues | md_lint.py:96-211 | The line pass and the end of the document never report E-READ, W-CRLF or W-NOEOFNL. |
| Scanner.WholeTextIssues | md_lint.py:78-84 | The whole-text checks report only W-CRLF and W-NOEOFNL. |
| Scanner.WholeTextRules | md_lint.py:78-84 | W-CRLF is reported once, at line 1 column 1, exactly when the text contains `\r\n`. W-NOEOFNL is reported once, at line 0 column 0, exactly when the text does not end in `\n`, which includes the empty text. |
| Scanner.CheckText | md_lint.py:78-211 | A document that was read never gets E-READ. `WholeTextReport` and `ScanAtLine` split its findings into the whole-text ones and those of each line. |
| Scanner.CheckFile | md_lint.py:69-76 | An unreadable file gives exactly one E-READ and nothing else. A readable file never gives E-READ. |
| ScanProperties.RunKeeps | md_lint.py:96-200 | The findings the pass keeps for each line are that line's own findings, in the state the earlier lines leave. Later lines never change them. |
| ScanProperties.ScanRange | md_lint.py:96-211 | Every finding of the line pass and the end of the document lies on a line of the document. Line numbers never decrease. |
| ScanProperties.ScanAtLine | md_lint.py:96-211 | The findings at line `n` are what the pass recorded for that line, plus, at the last line, those of the end of the document. |
| ScanProperties.WholeTextReport | md_lint.py:78-84 | In a readable file's result, the E-READ, W-CRLF and W-NOEOFNL findings are exactly the whole-text ones. |
| ScanProperties.AppendFinalNewline | md_lint.py:78-211 | A non-empty text that ends in neither `\n` nor `\r` gets W-NOEOFNL. With a final `\n` added, its findings are the same with W-NOEOFNL removed. |
| ScanProperties.AppendAfterCr | md_lint.py:78-84 | The first exception: a text ending in `\r` without a `\r\n` gains W-CRLF when `\n` is added, and loses W-NOEOFNL. |
| ScanProperties.AppendToEmpty | md_lint.py:78-211 | The second exception: the empty text gets only W-NOEOFNL. `\n` is one empty line, which gets nothing, or only W-LINELEN when the limit is negative. |
| ScanProperties.LineOrder | md_lint.py:78-211 | There are at most two whole-text findings. Every later finding lies on a line of the document, and line numbers never decrease. |
| ScanProperties.SeenH1Exists | md_lint.py:151-155 | The "seen a level-1 heading" flag after `k` lines holds exactly when one of those lines is a level-1 heading outside a fence. |
| ScanProperties.StepReference | md_lint.py:99-193 | One line takes the reference state of the lines before it to the reference state of the lines up to it. The reference state consists of the open fence, the last heading level, whether an H1 has been seen, and the table block. |
| ScanProperties.StateTracking | md_lint.py:86-193 | After any number of lines, the pass's state equals the reference state read directly from those lines. |
| ScanProperties.StepByRule | md_lint.py:99-200 | Rule by rule, one line reports nothing if it is a fence line, only W-TRAIL inside a fence, and otherwise exactly what each rule's check reports on its own. |
| ScanProperties.LineReport | md_lint.py:96-200 | The document's findings at line `n`, for every per-line rule except the table check, are what that line reports in the reference state of the lines before it. |
| ScanProperties.FenceReport | md_lint.py:202-204 | The document gets E-FENCE once, at the last line, exactly when a fence is still open after the last line. Otherwise it gets none. |
| ScanProperties.TableTail | md_lint.py:206-211 | At the end of the document, the table block still open, read directly from the lines, is flushed at the last line. |
| ScanProperties.TableReport | md_lint.py:178-211 | The W-TABLEPIPES findings at line `n` come from two places: the flush of the block that line ends, and, at the last line, the flush of the block still open. |
| ScanProperties.HeadingLine | md_lint.py:139-160 | The heading findings at line `n` are those of the heading on that line, if it lies outside a fence, judged against the headings before it. |
| ScanProperties.MultiH1Report | md_lint.py:151-155 | W-MULTIH1 is at line `n` exactly when that line is a level-1 heading and an earlier line was one too. It occurs there at most once. |
| ScanProperties.HeadJumpReport | md_lint.py:157-160 | W-HEADJUMP(from, to) is at line `n` exactly when line `n` is a heading of level `to`, the last heading before it had level `from > 0`, and `to > from + 1`. Decreases, single steps and first headings never fire it. It occurs there at most once. |
| ScanLoop.CheckLines | md_lint.py:78-211 | The loop, with the scan state in local variables, computes exactly the fold. After the whole-text findings, line numbers never decrease. |
| ScanLoop.Check | md_lint.py:69-76 | The method gives the same result as the model's `check_file`, which reads the untranslated text, on readable and unreadable documents. |
| ScanLoop.CheckAsWritten | md_lint.py:69-76 | The method gives the same result as `check_file` as written, on the text after newline translation. It never reports W-CRLF. |
| Reading.Translate | md_lint.py:72 | The text-mode read's newline translation. The result holds no `\r`, and text without `\r` is unchanged. |
| Reading.TranslateCrlf | md_lint.py:72 | Read in text mode, a document with `\r\n` breaks is its `\n` version. |
| Reading.CheckFileAsWritten | md_lint.py:72-80 | `check_file` as written, on the translated text: an unreadable file gives one E-READ, and no document ever gets W-CRLF. |
| Reading.CrlfReported | md_lint.py:79-80 | On the untranslated text, W-CRLF is at line 1 exactly when the text holds `\r\n`, and it is the only W-CRLF. |
| Reading.CrlfMissed | md_lint.py:72-80 | For every non-empty document with `\r\n` breaks, the intended check reports W-CRLF and the check as written does not. As written, the document is linted exactly as its `\n` version. |
| Reading.CrlfExample | md_lint.py:72-80 | `a\r\nb\r\n` gets W-CRLF from the intended check and none from the check as written. |
| MarkdownFiles.Extension | md_lint.py:47 | The extension is empty or starts with `.`, and it contains no `/`. |
| MarkdownFiles.ExtensionOf | md_lint.py:47 | If something other than dots comes before a name's last `.`, its extension is that `.` and what follows it. |
| MarkdownFiles.NoExtension | md_lint.py:47 | A name without `.` has no extension. |
| MarkdownFiles.DotsOnly | md_lint.py:47 | A name that is only dots before its last `.`, such as `.md`, has no extension. |
| MarkdownFiles.IsMarkdownFile | md_lint.py:46-47 | The lower-cased extension is one of the four. `MarkdownName` characterises it on the name itself. |
| MarkdownFiles.MarkdownName | md_lint.py:46-47 | A file is a Markdown file exactly when what follows its last `.` is `md`, `markdown`, `mdown` or `mkdn` in any case, and something other than dots precedes that `.`. |
| MarkdownFiles.NoExtensionRejected | md_lint.py:46-47 | A name without an extension is never a Markdown file. |
| MarkdownFiles.TestName | tests/test_md_lint.py:11-25 | `test.` plus an extension is accepted exactly when the lower-cased extension is one of the four. |
| MarkdownFiles.TestMd | tests/test_md_lint.py:13 | `test.md` is accepted. |
| MarkdownFiles.TestMarkdown | tests/test_md_lint.py:14 | `test.markdown` is accepted. |
| MarkdownFiles.TestMdown | tests/test_md_lint.py:15 | `test.mdown` is accepted. |
| MarkdownFiles.TestMkdn | tests/test_md_lint.py:16 | `test.mkdn` is accepted. |
| MarkdownFiles.TestTxt | tests/test_md_lint.py:19 | `test.txt` is rejected. |
| MarkdownFiles.TestPy | tests/test_md_lint.py:20 | `test.py` is rejected. |
| MarkdownFiles.TestNoExtension | tests/test_md_lint.py:21 | `test` is rejected. |
| MarkdownFiles.TestUpperMd | tests/test_md_lint.py:24 | `test.MD` is accepted. |
| MarkdownFiles.TestMixedMarkdown | tests/test_md_lint.py:25 | `test.Markdown` is accepted. |

## Left out

- `check_http_links` (md_lint.py:222-249) and the `check_links` branch of
  `check_file` (md_lint.py:216-218). They make network HEAD requests. The
  model's `check_file` is the `check_links=False` case.
- `main` (md_lint.py:251-278): argument parsing, printing and the exit code.
- `get_md_files` (md_lint.py:38-41) and `iter_md_files` (md_lint.py:49-67):
  directory walks over the file system.
- `is_ignored` (md_lint.py:43-44): it delegates to `fnmatch`.
- The file read (md_lint.py:71-76). A document is either its text or
  `Unreadable`, and the exception text in the E-READ message is not modelled.
  `Readable` holds the bytes as decoded, before newline translation.
  `Reading.Translate` models the translation of a text-mode read, and
  `Reading.CheckFileAsWritten` runs the checks on its result.
- UTF-8 decoding: a document is a string of characters, and a file that does
  not decode is an `Unreadable` one.
- The `file`, `message` and `context` fields of `Issue`. Every issue of a
  document shares the same file. A code carries the numbers its message
  embeds: the levels, the line length and limit, the pipe counts and the
  scheme.
- `str.splitlines` breaks lines at many separators. The model breaks only at
  `\n` and at `\r\n`. A lone `\r`, `\v`, `\f`, `\x1c`-`\x1e`, `\x85`,
  `\u2028` and `\u2029` are treated as ordinary characters.
- `\d` in the list-marker pattern matches every Unicode decimal digit. The
  model matches ASCII digits only.
- `str.lower()` lower-cases every Unicode letter. The model lower-cases ASCII
  letters only. For the scheme this is exact, because `urlsplit` accepts only
  ASCII scheme characters before it lower-cases them. For the extension it is
  not. `.m\u212Adn` (with a Kelvin sign) lower-cases to `.mkdn` in Python and is
  accepted, but the model rejects it.
- `urllib.parse.urlparse` is reduced to its scheme, as current Python
  computes it. The url is cleaned first: leading characters up to U+0020 are
  stripped, and tab, CR and LF are deleted. The scheme is then the lower-cased
  text before the first `:` when that text is a letter followed by letters,
  digits, `+`, `-` or `.`. Otherwise there is no scheme. Older Python releases
  that do not clean the url, and the netloc, path and query parts, are not
  modelled.
- Patterns.Scheme: `urlparse` at md_lint.py:174 can raise `ValueError`, and
  nothing in `check_file` catches it. This happens for a netloc with an
  unbalanced `[` or `]`, or an invalid bracketed host. Since the link pattern
  lets `[` into a url, a line such as `[x](http://[a)` does this. The
  exception leaves `check_file`, so the program reports nothing for that
  document. The model has no exception path. `Scheme` is total
  (`Some("http")` here), and `Scanner.CheckFile` returns the document's
  findings. Modelling the exception would mean modelling `urlsplit`'s netloc
  parsing and its IPv6 and NFKC validation, which are not part of this model.
- `os.path.splitext` is modelled for POSIX paths, with `/` as the only
  separator.
- The `check_file` tests (tests/test_md_lint.py:27-68) read fixture files
  under `tests/test_files/`. Those files are not part of this model.
- Scanner.Majority: the contract promises only some value of maximal
  frequency, not the particular one `max(set(...), key=...)` picks on a tie.
  That choice depends on the iteration order of a Python set.

## Findings

| source | as written | input that shows it | evidently intended | confidence | as-written member | corrected member |
|---|---|---|---|---|---|---|
| md_lint.py:72-80 | The file is opened in text mode with universal newlines, so every `\r\n` is already `\n` when the W-CRLF search runs. W-CRLF can never be reported. | A file holding `a\r\nb\r\n`: the search sees `a\nb\n` and finds nothing. | W-CRLF at line 1 for every document with a `\r\n` break, as from a read with `newline=""`. | not executed | Reading.CheckFileAsWritten, with Reading.CrlfMissed and Reading.CrlfExample | Scanner.CheckFile, with Reading.CrlfReported |
