# lx / ctxp text presentation, in Dafny

`lx` prints files for pasting into a conversation or a document. Each file
gets three parts:

- a header made from a template, such as `{filename} ({row_count} rows)`;
- the file's contents, optionally cut to the first `head` and/or last
  `tail` lines (with a `... (k rows skipped)` line in between) and
  optionally numbered with the original line numbers;
- a footer made from a second template.

The older `internal/ctxp` package does the same with `<filename>` and
`<row_count>` placeholders and fewer options.

This project models the pure core of both as functions over byte strings.
It proves what the code promises about each part.

| module | file | what it models |
|---|---|---|
| `ByteText` | `bytes.dfy` | bytes, joining (`bytes.Join(_, nil)`), counting a byte (`bytes.Count`) |
| `Decimal` | `decimal.dfy` | `strconv.Itoa` and reading its digits back |
| `Lines` | `lines.dfy` | `countLines`, `splitLines`, `prepareView`, `sliceLines`, `addLineNumbers` of `lx/lines.go` |
| `Replace` | `replace.dfy` | `strings.ReplaceAll`, and when a chain of passes equals filling a template once |
| `Language` | `language.dfy` | `languageFromPath` |
| `Runner` | `runner.dfy` | `NewRunner`, `buildPrefix`, `buildPostfix`, `runFile`, `Run` of `lx/runner.go` |
| `Config` | `config.dfy` | `Options.Effective` |
| `Args` | `args.dfy` | `NormalizeArgs` of `lx/args.go`, parameterised by the flag letters |
| `LegacyCli` | `legacy_cli.dfy` | `NormalizeArgs` of `internal/ctxp/cli.go` (letters n and t only) and its relation to lx's |
| `LegacyLines` | `legacy_lines.dfy` | `countLines`, `splitLines`, `sliceLines` of `internal/ctxp/lines.go` |
| `LegacyRunner` | `legacy_runner.dfy` | `Run` of `internal/ctxp/runner.go` |

Each operation is paired with an independent description and a lemma
connecting the two:

- The splitter is the unique decomposition into logical lines
  (`SplitLinesSpec`, `SplitConcat`).
- A cut view is exactly the kept lines (`KeptLines`, `ViewLines`).
- Numbering labels every original line with its own row number
  (`ExpectedNumbering`, `NumberedView`).
- The six header passes equal a single fill of a template made of text and
  placeholders, as long as neither its text nor any substituted value
  contains `{` (`RenderPrefix`). `PathWithPlaceholder`
  shows a value that does contain `{` being rewritten by a later pass.
- The ctxp line helpers agree with lx's on every input (`SliceAgrees`,
  `ScanIsSplit`).
- The ctxp argument rewrite agrees with lx's exactly when no argument is
  `-h` glued to digits (`LegacyCli.Agreement`).

The `-n` option follows the code and its option tests. `-n` copies its
value to each side that was not set explicitly (lx/config.go:26-34). It is
neither split evenly between head and tail nor clamped.

## Model

| member | source | states |
|---|---|---|
| Decimal.NatToDecimal | lx/lines.go:104 | the digits of a natural number are canonical (no leading zero except "0" itself) |
| Decimal.Itoa | lx/lines.go:104 | `strconv.Itoa` output is non-empty and starts with '-' exactly for negative values; what follows the sign, or the whole output for a non-negative value, is the canonical digits of the magnitude (no leading zero, never "-0") |
| Decimal.ParseOfDecimal | lx/runner.go:49 | reading back the digits Itoa writes for a natural number gives the number |
| Decimal.DecimalOfParse | lx/runner.go:49 | a canonical digit string is what Itoa writes for its value |
| Decimal.ItoaRoundTrip | lx/lines.go:104 | reading back `strconv.Itoa` output gives the value: the digits after the '-' of a negative value give its magnitude, and the output of a non-negative value gives the value itself |
| Decimal.ItoaInjective | lx/lines.go:52 | different numbers give different decimal text, so a row count or skip count is recoverable from its text |
| Lines.SplitAfter | lx/lines.go:71 | `bytes.SplitAfter` on "\n" always yields at least one piece |
| Lines.SplitAfterConcat | lx/lines.go:71 | the pieces put back together are the data |
| Lines.SplitAfterCount | lx/lines.go:71 | there is one piece more than there are newlines |
| Lines.SplitAfterLines | lx/lines.go:71 | every piece but the last ends in its only newline; the last has no newline |
| Lines.SplitLinesSpec | lx/lines.go:67-76 | `splitLines` round-trips through joining, yields well-formed logical lines, is empty exactly for empty data, and has as many pieces as `countLines` (lines 10-22) counts |
| Lines.SplitConcat | lx/lines.go:67-76 | conversely, splitting the join of any well-formed line list gives back that list, so the split is the unique decomposition into lines |
| Lines.SplitSingleLine | lx/lines.go:67-76 | a single logical line splits into itself |
| Lines.SplitLinesCons | lx/lines.go:67-76 | a terminated line in front of more data is split off as the first line |
| Lines.PrepareView | lx/lines.go:26-63 | the total is the row count of the whole data for every head and tail; the view is the data itself when the data is empty, there is no limit, one limit reaches the row count, or both together reach it (equality included) |
| Lines.ViewLines | lx/lines.go:44-62 | a view that removes something splits into exactly the kept lines: the first `head`, one ellipsis line, and the last `tail`, each present when its limit is in force; at least one row is skipped between head and tail |
| Lines.CutIsKept | lx/lines.go:44-62 | the join of the kept lines is the cut view, and the cut view splits back into them |
| Lines.HeadLines | lx/lines.go:55-56 | the first `head` lines joined split back into themselves |
| Lines.TailLines | lx/lines.go:58-59 | the last `tail` lines joined split back into themselves |
| Lines.MixedLines | lx/lines.go:47-53 | the head lines, the ellipsis line and the tail lines, joined once, are the three parts laid end to end and split back into the three parts |
| Lines.EllipsisIsLine | lx/lines.go:52 | the "... (k rows skipped)" line is one newline-terminated logical line |
| Lines.ViewIsCut | lx/lines.go:55-59 | a cut view is non-empty; a head-only view is a proper prefix of the data and a tail-only view a proper suffix |
| Lines.CutIsProper | lx/lines.go:55-59 | the same for the cut of any well-formed line list of the data |
| Lines.HeadIsProperPrefix | lx/lines.go:56 | fewer than all lines from the front join to a non-empty proper prefix |
| Lines.TailIsProperSuffix | lx/lines.go:59 | fewer than all lines from the back join to a non-empty proper suffix |
| Lines.NumberLinesSnoc | lx/lines.go:100-111 | numbering one more line appends that line behind the next label |
| Lines.NumberLinesFromRow | lx/lines.go:100-111 | numbering lines lo..hi from lo+1 labels each with its own row number |
| Lines.NumberingFromOne | lx/lines.go:113-121 | with the full-file predicate on `totalRows`, or in the head-only case (lines 157-159), every line is labelled 1, 2, … |
| Lines.NumberKept | lx/lines.go:124-168 | numbering the kept lines of a view with the whole row count labels every original line with its own number and leaves the ellipsis line bare, so the clamps at 135-153 change nothing and the fallback at 168 is never taken |
| Lines.NumberKeptMixed | lx/lines.go:126-155 | in the head+tail case the head rows are labelled 1..head, the ellipsis line passes through, and the tail rows are labelled from totalRows-tail+1 |
| Lines.NumberRowsMixed | lx/lines.go:126-155 | when the lines are head rows, one middle line and tail rows, the head+tail branch numbers exactly those parts |
| Lines.NumberedView | lx/lines.go:89-168 | `addLineNumbers` applied to `prepareView`'s own view and total gives empty output for empty data, and otherwise every original line behind the label of its own row number, with the ellipsis line unnumbered |
| Replace.ReplaceAllLength | lx/runner.go:48-53 | a pass keeps the length when nothing is replaced or the replacement is as long as the pattern; otherwise it grows or shrinks accordingly |
| Replace.ReplacementsIffOccurs | lx/runner.go:48-53 | a pass replaces something exactly when the pattern occurs |
| Replace.UnchangedIffAbsent | lx/runner.go:48-53 | a pass leaves text without the pattern unchanged; when the replacement's length differs, an unchanged result means the pattern was absent |
| Replace.NoReplacementIdentity | lx/runner.go:48-53 | with no replacement made, the text comes back as it was |
| Replace.OpenerFreeHasNoOccurrence | lx/runner.go:48-53 | text without the placeholder's opening byte contains no placeholder |
| Replace.PassOverFreeText | lx/runner.go:48-53 | text without the opening byte passes through a pass untouched, and the scan continues after it |
| Replace.PassOverPattern | internal/ctxp/runner.go:117-118 | the pattern at the front is replaced and the scan resumes after it |
| Replace.PassOverOtherToken | lx/runner.go:48-53 | a placeholder that is not the pattern (and neither is a prefix of the other) passes through a pass untouched |
| Replace.PassFillsSlot | lx/runner.go:48-53 | one pass over a partly filled template fills the next slot, as long as the text and values already in it have no opening byte |
| Replace.FillRemaining | lx/runner.go:46-55 | the remaining passes in order fill the remaining slots |
| Replace.RenderTemplate | lx/runner.go:46-55 | all the passes in order equal filling every slot of the template at once |
| Runner.NewRunner | lx/runner.go:30-44 | head, tail and numbering are copied; an empty template becomes the default one; a non-empty template is kept verbatim; both templates end up non-empty |
| Runner.NewRunnerStable | lx/runner.go:30-44 | building a runner again from a built runner's fields changes nothing |
| Runner.Newline | lx/runner.go:22-27 | the line break is "\r\n" on Windows and "\n" elsewhere |
| Runner.BuildPrefixPasses | lx/runner.go:46-55 | `buildPrefix` is the six replace-all passes of the placeholder table, in the table's order |
| Runner.RenderPrefix | lx/runner.go:46-55 | for a template made of text and placeholders with no stray '{', and values without '{', the header is the template filled once |
| Runner.DefaultPrefixIsTemplate | lx/runner.go:31-33 | the default header is a template of text and placeholders with no stray '{' |
| Runner.DefaultHeader | lx/runner.go:31-55 | with the default template and a path without '{', the header is "path (rows rows)", "---", and the fence with the language tag, each ended by the platform newline |
| Runner.DefaultFooter | lx/runner.go:34-36 | with the default footer, `buildPostfix` gives the closing fence followed by two platform newlines |
| Runner.PassWithoutBrace | lx/runner.go:48-53 | a pass leaves text without '{' alone |
| Runner.NoBraceUnchanged | lx/runner.go:46-59 | a header or footer template without '{' comes out unchanged |
| Runner.PassOverOtherName | lx/runner.go:48-53 | one placeholder is not touched by another placeholder's pass |
| Runner.PassOverOtherFront | lx/runner.go:53 | a different placeholder at the front of the text is kept and the pass goes on after it |
| Runner.FooterKeepsFilename | lx/runner.go:57-59 | `buildPostfix` replaces only `{n}`: a `{filename}` anywhere in the footer, after text without '{', stays verbatim and the pass goes on over the rest |
| Runner.PassOverOwnName | lx/runner.go:53 | a placeholder at the front is replaced by its value and the scan goes on after it |
| Runner.MiddlePassesKeep | lx/runner.go:49-52 | the row-count, size, date and language passes leave `{n}` alone |
| Runner.PathWithPlaceholder | lx/runner.go:48-53 | a path that is itself `{n}`, put in by the first pass, is turned into a line break by the last one |
| Runner.RunFile | lx/runner.go:61-99 | a stat failure, then a read failure, each names the path and gives no output; otherwise the result is the rendering of that file's own path, size, modification time and contents |
| Runner.Results | lx/runner.go:102-106 | one result per file, in order |
| Runner.CollectAppend | lx/runner.go:101-108 | outputs of files that render are laid end to end and the run continues with the rest |
| Runner.CollectDone | lx/runner.go:101-108 | a run finishes exactly when no file fails, and then its output is all outputs in order |
| Runner.FirstFailure | lx/runner.go:102-106 | when some file fails there is a first one, and every file before it renders |
| Runner.CollectStops | lx/runner.go:103-105 | the first failure ends the run, after the outputs of the files before it |
| Runner.RunDone | lx/runner.go:101-108 | `Run` completes exactly when every file renders, with their outputs in input order |
| Runner.RunStops | lx/runner.go:101-108 | a failing file stops the run: earlier output stands, later files play no part, and the error names the file |
| Runner.RunAppend | lx/runner.go:101-108 | a run over files that all render, followed by more files, is the first run's output then the second run |
| Runner.RunOne | lx/runner.go:61-108 | a run over one readable file is that file's output |
| Runner.BodySpec | lx/runner.go:72-89 | the body is the data when the limits remove nothing, otherwise exactly the kept lines; with numbering, every original line behind its own number and the ellipsis line bare |
| Runner.RenderDefault | lx/runner.go:72-96 | under the default templates a file's output is the default header with the row count of the whole file, the body, and the closing fence with an empty line |
| Language.Ext | lx/language.go:10 | the extension is empty or starts at a '.', is a suffix of the path, and contains no other '.' and no '/' |
| Language.LowerByte | lx/language.go:10 | ASCII upper-case letters are lowered and every other byte is kept |
| Language.LanguageOf | lx/language.go:12-57 | the tag is one of the identifiers of the switch or empty, all lower-case letters, and it is empty exactly when the extension is not one of the 31 the switch lists |
| Language.TagsHaveNoBrace | lx/language.go:12-57 | no tag contains '{', so it cannot create a placeholder in the header |
| Language.GroupC | lx/language.go:29-30 | the tag is "c" exactly for ".c" and ".h" |
| Language.GroupCpp | lx/language.go:31-32 | the tag is "cpp" exactly for the six C++ extensions |
| Language.GroupBash | lx/language.go:33-34 | the tag is "bash" exactly for ".sh" and ".bash" |
| Language.GroupHtml | lx/language.go:41-42 | the tag is "html" exactly for ".html" and ".htm" |
| Language.GroupYaml | lx/language.go:47-48 | the tag is "yaml" exactly for ".yml" and ".yaml" |
| Language.GroupMarkdown | lx/language.go:51-52 | the tag is "markdown" exactly for ".md" and ".markdown" |
| Language.ExtOfLower | lx/language.go:10 | lowering the path then taking the extension equals taking the extension then lowering it |
| Language.LowerIdempotent | lx/language.go:10 | lowering twice is lowering once |
| Language.CaseInsensitive | lx/language.go:9-58 | paths that differ only in ASCII case get the same tag |
| Language.ExtOfLastDot | lx/language.go:10 | the extension runs from the last '.' of the final path element |
| Language.LastExtensionOnly | lx/language.go:10-57 | only the final extension decides the tag |
| Language.NoDotNoExt | lx/language.go:10 | a final path element without '.' has no extension |
| Language.NoExtensionNoTag | lx/language.go:55-56 | a name without an extension gets the empty tag |
| Language.ExampleUpperCase | lx/language_test.go:146-150 | names ending in ".TSX" get "tsx", as "COMPONENT.TSX" does |
| Language.ExampleMixedCase | lx/language_test.go:151-155 | names ending in ".JsX" get "jsx", as "Component.JsX" does |
| Language.ExampleLastExtension | lx/language_test.go:156-160 | "archive.tar.gz"-style names get no tag |
| Language.ExampleNoExtension | lx/language_test.go:161-165 | "LICENSE" gets no tag |
| Language.UnlistedNoTag | lx/language.go:55-56 | a path whose last extension, lower-cased, is not in the table gets the empty tag, whatever precedes it |
| Language.ExampleHiddenFile | lx/language_test.go:166-170 | ".gitignore", alone or behind any prefix, is its own extension and gets no tag |
| Language.ExampleUnknown | lx/language_test.go:171-175 | names ending in ".unknown", "file.unknown" among them, get no tag |
| Config.Effective | lx/config.go:22-43 | without `-n`, or for a side set explicitly, the side keeps its own value; with `-n`, a side not set explicitly takes the `-n` value; templates and numbering reach `NewRunner` unchanged |
| Config.BothExplicitIgnoresN | lx/config.go:27-34 | with both sides set explicitly, whether `-n` was given and its value do not matter |
| Config.FilesIgnored | lx/config.go:22-43 | the file list never influences the runner |
| Config.SwapSides | lx/config.go:27-34 | head and tail follow the same rule: swapping the sides of the options swaps the limits |
| Config.NoSplitNoClamp | lx/config.go:27-34 | each limit is its own flag's value or the `-n` value, never a split or clamped value; `-n` alone gives both sides the full value |
| Config.ExampleCases | lx/config_test.go:5-93 | the five option-test cases give the (head, tail) the tests expect |
| Config.ExampleTemplates | lx/config_test.go:95-121 | templates and line numbering reach the runner as given |
| Args.Expand | lx/args.go:12-26 | a glued argument becomes the two-byte flag and its digits, anything else stays whole; the parts joined are the argument |
| Args.NormalizeArgs | lx/args.go:5-30 | the loop builds the rewrite argument by argument; the joined output is the joined input; the output has one more element per split argument |
| Args.NormalizeConcat | lx/args.go:22 | no byte is lost, added or reordered |
| Args.NormalizeLength | lx/args.go:10-27 | output length is input length plus the number of split arguments |
| Args.NormalizeAppend | lx/args.go:11-27 | the rewrite works argument by argument, preserving order |
| Args.GluedCountZero | lx/args.go:12-24 | nothing is split exactly when no argument is glued |
| Args.NormalizeIdentity | lx/args.go:11-27 | the arguments come back unchanged exactly when none is glued |
| Args.OutputNotGlued | lx/args.go:12-24 | no output element has the glued shape |
| Args.Idempotent | lx/args.go:5-30 | rewriting twice is rewriting once |
| Args.NormalizeOne | lx/args.go:11-27 | a single argument is rewritten on its own |
| Args.ExampleSplits | lx/args_test.go:14-28 | "-n5", "-t10" and "-h5" are split |
| Args.ExampleNotDigits | lx/args_test.go:34-48 | "-nfoo" and "-h-5" stay whole |
| Args.ExampleOtherFlags | lx/args.go:12 | "-x2" (another letter, the "other flags" test case at lx/args_test.go:49-53) and a bare "-n" (not longer than two bytes) stay whole |
| LegacyCli.GluedSplit | internal/ctxp/cli.go:20 | lx's glued shape is ctxp's (n, t) or "-h" glued to digits, never both |
| LegacyCli.GluedCountSplit | internal/ctxp/cli.go:19-37 | lx splits exactly what ctxp splits plus the glued "-h" arguments |
| LegacyCli.SameWithoutHead | internal/ctxp/cli.go:13-40 | without a glued "-h" the two rewrites agree |
| LegacyCli.Agreement | internal/ctxp/cli.go:13-40 | the ctxp and lx rewrites agree on an argument list exactly when no argument is "-h" glued to digits |
| LegacyCli.ExampleHeadNotSplit | internal/ctxp/cli.go:20-34 | ctxp keeps "-h5" whole where lx splits it, and still splits "-n2" |
| LegacyLines.IndexOf | internal/ctxp/lines.go:16-20 | the scanner finds the first newline: a position holding it with none before |
| LegacyLines.DropCR | internal/ctxp/lines.go:16-20 | the scanner drops one carriage return at the end of a row, and only there |
| LegacyLines.ScanIsSplit | internal/ctxp/lines.go:16-20 | the scanner's rows are exactly the splitter's logical lines, each without its line ending |
| LegacyLines.CountRows | internal/ctxp/lines.go:11-22 | the scanning loop counts the scanner's rows, which is lx's `countLines` |
| LegacyLines.LegacySplitLines | internal/ctxp/lines.go:26-38 | the ctxp splitter is lx's splitter; its empty-result guard never fires |
| LegacyLines.CutAgrees | internal/ctxp/lines.go:55-77 | gathering the kept pieces and joining once gives lx's cut |
| LegacyLines.JoinThree | internal/ctxp/lines.go:62-77 | joining head lines, the ellipsis and tail lines at once is joining each part |
| LegacyLines.SliceAgrees | internal/ctxp/lines.go:43-78 | for every input the ctxp slicer returns exactly the view lx's `prepareView` returns, despite the reordered checks |
| LegacyLines.CountIsSplit | internal/ctxp/lines.go:11-38 | the ctxp row count is the number of pieces the ctxp splitter makes |
| LegacyLines.LegacySliceSpec | internal/ctxp/lines.go:43-78 | empty data, no limit or covering limits return the data; otherwise the view splits into the kept lines |
| LegacyRunner.WithDefaults | internal/ctxp/runner.go:100-105 | empty templates become "<filename> (<row_count> rows)\n---\n```\n" and "```\n"; non-empty ones and the limits are kept |
| LegacyRunner.RowCountIsLines | internal/ctxp/runner.go:113 | the header's row count is the row count of the whole file |
| LegacyRunner.RenderSpec | internal/ctxp/runner.go:113-128 | a file's output is the header with the whole file's row count, lx's view of it, and the footer verbatim |
| LegacyRunner.HeaderWithoutAngle | internal/ctxp/runner.go:116-118 | a header template without '<' comes out as written, whatever the path and row count |
| LegacyRunner.DefaultHeader | internal/ctxp/runner.go:100-118 | with the default template and a path without '<', the header is "path (rows rows)", "---" and the opening fence, one per line |
| LegacyRunner.RunFile | internal/ctxp/runner.go:108-111 | a read failure names the path and gives no output; otherwise the file is rendered |
| LegacyRunner.CtxpResults | internal/ctxp/runner.go:107-129 | one result per file, in order |
| LegacyRunner.RunStops | internal/ctxp/runner.go:107-111 | an unreadable file stops the run after the output of the files before it, naming the file |
| LegacyRunner.Texts | internal/ctxp/runner.go:107-129 | one output per readable file, in input order, each the file's rendering |
| LegacyRunner.RunReadable | internal/ctxp/runner.go:107-131 | a run over any list of readable files completes, and its output is their outputs laid end to end in input order |
| LegacyRunner.DefaultRender | internal/ctxp/runner.go:100-128 | with the default templates a file's output is the default header with its row count, the ctxp view, and the closing fence |
| LegacyRunner.RowsOfLines | internal/ctxp/lines.go:11-38 | a file made of n well-formed lines has n rows and splits into those lines |
| LegacyRunner.ExampleDefaults | internal/ctxp/runner_test.go:10-42 | two files of two and three lines, default templates, no limits: each whole, with "(2 rows)" and "(3 rows)" headers |
| LegacyRunner.ExampleHeadPlusTail | internal/ctxp/runner_test.go:70-93 | head 3 and tail 3 on a five-line file show it whole, with "(5 rows)" |
| LegacyRunner.ExampleSixRows | internal/ctxp/runner_test.go:44-68 | head 2 and tail 2 on a six-line file give "(6 rows)" and an ellipsis line for the two skipped rows |

## Left out

- File system and output. `os.Stat`, `os.ReadFile` and the writes to `out` are left out. A file is modelled by its path and what stat and read report for it (a failure, or the size, date and contents). Write errors are not modelled, so a run stops only on a stat or read failure.
- Error messages. The text of the `fmt.Errorf` wrapping is not modelled; a failure records its kind and the path.
- The modification date. It enters as ready-made RFC 3339 text, since time formatting is outside the core.
- Platform. `runtime.GOOS` becomes the boolean parameter `windows` of `Newline`.
- Number formatting. `strconv.FormatInt(size, 10)` for the byte size is modelled by the same `Itoa` as `strconv.Itoa`. The two agree on every 64-bit value, and sizes are taken as unbounded integers.
- Language.ToLower: lowers ASCII letters only. Go's `strings.ToLower` also lowers non-ASCII letters. No extension in the lookup table contains a byte outside ASCII, so the non-ASCII lowering cannot change which table entry matches, except for the Kelvin sign (U+212A). It lowers to the ASCII 'k', so ".mar\u212Adown" would match ".markdown" (lx/language.go:51) in Go but not in the model. The dotted capital I (U+0130) lowers to 'i' too, but no extension in the table contains 'i'.
- Language.Ext: treats '/' as the only path separator, as `filepath.Ext` does on Unix. The Windows separator '\' is not modelled.
- LegacyLines.ScanTokens: abstracts from the scanner's 64 KiB token limit. The source ignores `sc.Err()`, so a longer line there ends the count early; the model counts it.
- Duplicate helpers. `internal/ctxp/runner.go` repeats `countLines`, `splitLines` and `sliceLines` of `internal/ctxp/lines.go`. Both copies in one Go package would not compile together, and they read the same; they are modelled once, in `LegacyLines`.
- The command line. The urfave/cli commands (`NewCommand`, `lx/cli.go`, `ctxp/cli.go`, `cmd/*/main.go`), reading file names from standard input (`lx/stdin.go`), and the copy of `NormalizeArgs` in `lx/cli.go` are not part of this model. `Args` covers the argument rewrite once for both copies.
- Stale test expectations. `internal/ctxp/runner_test.go:44-68` expects "(4 rows)" and no ellipsis line for a six-line file cut to head 2 and tail 2. The code counts the whole file and adds the ellipsis line, and `LegacyRunner.ExampleSixRows` states what the code gives.
- Example lemmas with file contents. Those taken from the ctxp runner tests state their expectations for any paths without '<' and any well-formed lines of the given number, not for the literal test strings.
